/**
 * The byte stream of the lexer: one decoded UTF-8 character of buffering, one byte of pushback, and the
 * position, line and column of what has been read (jansson-2.3/src/load.c:47-56, 128-221, 851-869).
 */
module Streams {
  import opened Bytes
  import Utf8

  const STATE_OK: int := 0
  const STATE_EOF: int := -1
  const STATE_ERROR: int := -2
  const LF: byte := 10

  function Newlines(p: bytes): nat {
    if p == [] then 0 else Newlines(p[..|p| - 1]) + if p[|p| - 1] == LF then 1 else 0
  }

  /** First bytes of characters since the last newline. */
  function Column(p: bytes): nat {
    if p == [] then 0
    else
      var b := p[|p| - 1];
      if b == LF then 0 else Column(p[..|p| - 1]) + if Utf8.CheckFirst(b) != 0 then 1 else 0
  }

  function PointsSinceNewline(cps: seq<Utf8.scalar>): nat {
    if cps == [] then 0
    else if cps[|cps| - 1] == 10 then 0
    else PointsSinceNewline(cps[..|cps| - 1]) + 1
  }

  lemma {:induction false} EncodeAllSnoc(cps: seq<Utf8.scalar>)
    requires cps != []
    ensures Utf8.EncodeAll(cps) == Utf8.EncodeAll(cps[..|cps| - 1]) + Utf8.Encode(cps[|cps| - 1])
  {
    if |cps| > 1 {
      EncodeAllSnoc(cps[1..]);
      assert cps[1..][..|cps[1..]| - 1] == cps[..|cps| - 1][1..];
      Assoc(Utf8.Encode(cps[0]), Utf8.EncodeAll(cps[..|cps| - 1][1..]), Utf8.Encode(cps[|cps| - 1]));
    } else {
      assert cps[1..] == [] && cps[..0] == [];
      assert Utf8.Encode(cps[0]) + [] == [] + Utf8.Encode(cps[0]);
    }
  }

  lemma ColumnOfChar(p: bytes, cp: int)
    requires Utf8.IsScalar(cp)
    ensures Column(p + Utf8.Encode(cp)) == if cp == 10 then 0 else Column(p) + 1
  {
    var e := Utf8.Encode(cp);
    assert p + e[..1] == p + [e[0]];
    ColumnSnoc(p, e[0]);
    if |e| >= 2 {
      ColumnSnoc(p + e[..1], e[1]);
      assert p + e[..1] + [e[1]] == p + e[..2];
    }
    if |e| >= 3 {
      ColumnSnoc(p + e[..2], e[2]);
      assert p + e[..2] + [e[2]] == p + e[..3];
    }
    if |e| == 4 {
      ColumnSnoc(p + e[..3], e[3]);
      assert p + e[..3] + [e[3]] == p + e[..4];
    }
    assert e[..|e|] == e;
  }

  lemma ColumnSnoc(p: bytes, b: byte)
    ensures Column(p + [b]) == if b == LF then 0 else Column(p) + if Utf8.CheckFirst(b) != 0 then 1 else 0
  {
    assert (p + [b])[..|p|] == p;
  }

  lemma NewlinesSnoc(p: bytes, b: byte)
    ensures Newlines(p + [b]) == Newlines(p) + if b == LF then 1 else 0
  {
    assert (p + [b])[..|p|] == p;
  }

  /** On whole characters the column counts code points since the last newline. */
  lemma {:induction false} ColumnCountsCodePoints(cps: seq<Utf8.scalar>)
    ensures Column(Utf8.EncodeAll(cps)) == PointsSinceNewline(cps)
  {
    if cps != [] {
      var n := |cps| - 1;
      ColumnCountsCodePoints(cps[..n]);
      EncodeAllSnoc(cps);
      ColumnOfChar(Utf8.EncodeAll(cps[..n]), cps[n]);
    }
  }

  /** No byte of a decodable text can be mistaken for the end or error code when read as a signed char. */
  lemma {:induction false} BytesAreNotCodes(s: bytes, i: nat)
    requires i < |Utf8.ValidPrefix(s)|
    ensures Utf8.ValidPrefix(s)[i] < 0xF5
    decreases |s|
  {
    var c := Utf8.DecodeOne(s).value;
    Utf8.EncodeInvertsDecode(s);
    if i >= c.size {
      BytesAreNotCodes(s[c.size..], i - c.size);
    } else {
      assert Utf8.ValidPrefix(s)[i] == s[..c.size][i] == Utf8.Encode(c.cp)[i];
    }
  }

  class Stream {
    const data: bytes              // the C string being read
    var dataPos: nat
    const buffer: array<byte>
    var bufferPos: nat
    var state: int
    var line: int
    var column: int
    var lastColumn: int
    var position: nat
    ghost var start: nat           // where in the text the buffered character begins
    ghost var count: nat           // its length

    /** What the stream delivers: everything up to the first undecodable byte. */
    ghost function Text(): bytes {
      Utf8.ValidPrefix(data)
    }

    ghost function Rest(): bytes
      requires position <= |Text()|
      reads this
    {
      Text()[position..]
    }

    ghost predicate Broken() {
      Text() != data
    }

    ghost function EndCode(): int {
      if Broken() then STATE_ERROR else STATE_EOF
    }

    /** The counters describe exactly the consumed prefix. */
    ghost predicate Tracks()
      reads this
    {
      && position <= |Text()|
      && line == 1 + Newlines(Text()[..position])
      && column == Column(Text()[..position])
    }

    ghost predicate TracksLine()
      requires position <= |Text()|
      reads this
    {
      position > 0 && Text()[position - 1] == LF ==> lastColumn == Column(Text()[..position - 1])
    }

    ghost predicate Buffered()
      reads this, buffer
    {
      && buffer.Length == 5
      && count <= 4
      && start + count <= |Text()|
      && position == start + bufferPos
      && bufferPos <= count
      && buffer[..count] == Text()[start..start + count]
      && buffer[count] == 0
      && dataPos == start + count
      && dataPos <= |data|
      && Utf8.ValidPrefix(data[dataPos..]) == Text()[dataPos..]
      && (count >= 2 ==> forall i :: start <= i < start + count ==> Text()[i] >= 0x80)
      && (forall i :: start < i < start + count ==> Utf8.IsContinuation(Text()[i]))
    }

    ghost predicate Valid()
      reads this, buffer
    {
      && NulFree(data)
      && buffer.Length == 5
      && Text() <= data
      && Tracks()
      && (state == STATE_OK || state == STATE_EOF || state == STATE_ERROR)
      && (state == STATE_OK ==> Buffered())
      && (CanUnget() ==> TracksLine())
      && (state != STATE_OK ==> position == |Text()| && state == EndCode())
    }

    /** A byte has just been handed out, and can be put back. */
    ghost predicate CanUnget()
      reads this
    {
      state == STATE_OK && bufferPos > 0
    }

    constructor (text: bytes)
      requires NulFree(text)
      ensures Valid() && data == text && position == 0 && fresh(buffer)
      ensures line == 1 && column == 0
    {
      data := text;
      dataPos := 0;
      buffer := new byte[5];
      bufferPos := 0;
      state := STATE_OK;
      line, column, lastColumn, position := 1, 0, 0, 0;
      start, count := 0, 0;
      new;
      buffer[0] := 0;
    }

    /** string_get: the next byte, or EOF again and again. */
    method Fetch() returns (c: int)
      requires dataPos <= |data| && NulFree(data)
      modifies this`dataPos
      ensures old(dataPos) < |data| ==> c == data[old(dataPos)] && dataPos == old(dataPos) + 1
      ensures old(dataPos) == |data| ==> c == -1 && dataPos == |data|
    {
      var b := At(data, dataPos);
      if b == 0 {
        return -1;
      }
      dataPos := dataPos + 1;
      return b;
    }

    /** stream_get: the next byte as a signed char, or the end code. */
    method Get() returns (c: int)
      requires Valid()
      modifies this, buffer
      ensures Valid()
      ensures old(position) < |Text()| ==>
        c == Signed(Text()[old(position)]) && position == old(position) + 1 && CanUnget()
      ensures old(position) == |Text()| ==> c == EndCode() && position == |Text()| && state == EndCode()
    {
      hide Utf8.ValidPrefix, Newlines, Column;
      if state != STATE_OK {
        return state;
      }
      if bufferPos < count {
        BufferedByte();
      }
      if buffer[bufferPos] == 0 {
        var ok := Fill();
        if !ok {
          return state;
        }
      }
      var b := buffer[bufferPos];
      BufferedByte();
      Advance(b);
      bufferPos := bufferPos + 1;
      return Signed(b);
    }

    lemma BufferedByte()
      requires Valid() && state == STATE_OK && bufferPos < count
      ensures position < |Text()| && buffer[bufferPos] == Text()[position] != 0
    {
      hide Utf8.ValidPrefix, Newlines, Column;
      assert buffer[..count][bufferPos] == Text()[start..start + count][bufferPos];
      assert data[position] != 0;
    }

    /** Reads one whole character into the buffer, or enters the end or error state. */
    method Fill() returns (ok: bool)
      requires Valid() && state == STATE_OK && bufferPos == count
      modifies this`dataPos, this`bufferPos, this`state, this`start, this`count, buffer
      ensures Valid()
      ensures ok <==> position < |Text()|
      ensures ok ==> state == STATE_OK && bufferPos == 0 && 0 < count
      ensures !ok ==> state == EndCode()
    {
      hide Utf8.ValidPrefix, Utf8.DecodeOne, Newlines, Column;
      ghost var rest := data[dataPos..];
      var c := Fetch();
      if c == -1 {
        PrefixOfNothing(rest);
        state := STATE_EOF;
        return false;
      }
      bufferPos := 0;
      var n := FillChar(c, rest);
      if n == 0 {
        state := STATE_ERROR;
        EndsHere(rest);
        return false;
      }
      start, count := position, n;
      Delivers(rest, n);
      return true;
    }

    /** The character whose first byte has been fetched, with a NUL behind it; 0 when it is malformed. */
    method FillChar(c: byte, ghost rest: bytes) returns (n: nat)
      requires buffer.Length == 5 && NulFree(data)
      requires 1 <= dataPos <= |data| && rest == data[dataPos - 1..] && rest[0] == c
      modifies this`dataPos, buffer
      ensures n == 0 <==> Utf8.DecodeOne(rest).None?
      ensures n != 0 ==> n == Utf8.DecodeOne(rest).value.size && n <= 4 && n <= |rest|
      ensures n != 0 ==> dataPos == old(dataPos) - 1 + n && buffer[..n] == rest[..n] && buffer[n] == 0
    {
      hide Utf8.DecodeOne;
      buffer[0] := c;
      if c >= 0x80 {
        n := FillMultibyte(c, rest);
        if n != 0 {
          buffer[n] := 0;
        }
      } else {
        AsciiChar(rest);
        buffer[1] := 0;
        n := 1;
      }
    }

    static lemma AsciiChar(rest: bytes)
      requires rest != [] && rest[0] < 0x80
      ensures Utf8.DecodeOne(rest) == Some(Utf8.Char(rest[0], 1))
    {
    }

    /** The rest of a multi-byte character behind its first byte; 0 when it is malformed. */
    method FillMultibyte(c: byte, ghost rest: bytes) returns (n: nat)
      requires c >= 0x80 && buffer.Length == 5 && NulFree(data)
      requires 1 <= dataPos <= |data| && rest == data[dataPos - 1..] && buffer[0] == rest[0] == c
      modifies this`dataPos, buffer
      ensures n == 0 <==> Utf8.DecodeOne(rest).None?
      ensures n != 0 ==> n == Utf8.DecodeOne(rest).value.size && 2 <= n <= 4 && n <= |rest|
      ensures n != 0 ==> dataPos == old(dataPos) - 1 + n && buffer[..n] == rest[..n]
    {
      n := Utf8.CheckFirst(c);
      if n == 0 {
        return;
      }
      FillTail(n, rest);
      var full := Utf8.CheckFull(buffer[..n], 0, n);
      assert buffer[..n][0..] == buffer[..n];
      SameFullValue(rest, buffer[..n], n);
      if full == None {
        return 0;
      }
    }

    lemma PrefixOfNothing(rest: bytes)
      requires Valid() && state == STATE_OK && bufferPos == count
      requires rest == data[position..] && rest == []
      ensures position == |Text()| && !Broken()
    {
      assert Utf8.ValidPrefix(rest) == [];
    }

    method FillTail(n: nat, ghost rest: bytes)
      requires 2 <= n <= 4 && buffer.Length == 5 && NulFree(data)
      requires 1 <= dataPos <= |data| && rest == data[dataPos - 1..] && buffer[0] == rest[0]
      modifies this`dataPos, buffer
      ensures forall k :: 0 <= k < n ==> buffer[k] == if k < |rest| then rest[k] else 255
      ensures |rest| >= n ==> dataPos == old(dataPos) - 1 + n
      ensures dataPos <= |data|
    {
      var i := 1;
      while i < n
        invariant 1 <= i <= n
        invariant dataPos == old(dataPos) - 1 + (if i < |rest| then i else |rest|)
        invariant forall k :: 0 <= k < i ==> buffer[k] == if k < |rest| then rest[k] else 255
      {
        var c := Fetch();
        buffer[i] := if c == -1 then 255 else c;
        i := i + 1;
      }
    }

    lemma EndsHere(rest: bytes)
      requires position <= |Text()| <= |data| && Text() <= data && rest == data[position..] && rest != []
      requires Utf8.ValidPrefix(rest) == Text()[position..]
      requires Utf8.DecodeOne(rest).None?
      ensures position == |Text()| && Broken()
    {
      assert Utf8.ValidPrefix(rest) == [];
    }

    lemma Delivers(rest: bytes, n: nat)
      requires position <= |Text()| <= |data| && Text() <= data && rest == data[position..] && rest != []
      requires Utf8.ValidPrefix(rest) == Text()[position..]
      requires Utf8.DecodeOne(rest).Some? && n == Utf8.DecodeOne(rest).value.size
      ensures 0 < n <= 4 && position + n <= |Text()| && Text()[position..position + n] == rest[..n]
      ensures Utf8.ValidPrefix(data[position + n..]) == Text()[position + n..]
      ensures n >= 2 ==> forall i :: position <= i < position + n ==> Text()[i] >= 0x80
      ensures forall i :: position < i < position + n ==> Utf8.IsContinuation(Text()[i])
      ensures rest[0] < 0x80 <==> n == 1
    {
      hide *;
      FirstCharBytes(rest);
      PrefixOfChar(rest);
      var tail := Utf8.ValidPrefix(rest[n..]);
      assert rest[n..] == data[position + n..];
      var p := Text()[position..];
      assert p == rest[..n] + tail;
      assert p[n..] == tail && p[..n] == rest[..n];
      assert p[n..] == Text()[position + n..];
      assert p[..n] == Text()[position..position + n];
      forall i | position <= i < position + n
        ensures n >= 2 ==> Text()[i] >= 0x80
        ensures i > position ==> Utf8.IsContinuation(Text()[i])
      {
        assert Text()[i] == p[..n][i - position];
      }
    }

    static lemma PrefixOfChar(rest: bytes)
      requires rest != [] && Utf8.DecodeOne(rest).Some? && Utf8.DecodeOne(rest).value.size <= |rest|
      requires Utf8.DecodeOne(rest).value.size > 0
      ensures var n := Utf8.DecodeOne(rest).value.size;
        Utf8.ValidPrefix(rest) == rest[..n] + Utf8.ValidPrefix(rest[n..])
    {
      hide Utf8.DecodeOne;
    }

    static lemma FirstCharBytes(rest: bytes)
      requires rest != [] && Utf8.DecodeOne(rest).Some?
      ensures var n := Utf8.DecodeOne(rest).value.size;
        && 0 < n <= 4 && n <= |rest|
        && (n >= 2 ==> forall i :: 0 <= i < n ==> rest[i] >= 0x80)
        && (forall i :: 0 < i < n ==> Utf8.IsContinuation(rest[i]))
        && (rest[0] < 0x80 <==> n == 1)
    {
      Utf8.EncodeInvertsDecode(rest);
      var n, e := Utf8.DecodeOne(rest).value.size, Utf8.Encode(Utf8.DecodeOne(rest).value.cp);
      assert forall i :: 0 <= i < n ==> rest[i] == rest[..n][i] == e[i];
    }

    lemma SameFullValue(rest: bytes, b: bytes, n: nat)
      requires 2 <= n <= 4 && |b| == n && rest != []
      requires forall k :: 0 <= k < n ==> b[k] == if k < |rest| then rest[k] else 255
      ensures Utf8.FullValue(b, n) == Utf8.FullValue(rest, n)
    {
      if |rest| >= n {
        Utf8.PayloadUnfold(rest, n);
        Utf8.PayloadUnfold(b, n);
        assert b[..n] == rest[..n];
      } else {
        assert !Utf8.IsContinuation(b[|rest|]);
      }
    }

    /** Counts a byte that has just been taken. */
    method Advance(b: byte)
      requires Tracks() && position < |Text()| && b == Text()[position]
      modifies this`position, this`line, this`column, this`lastColumn
      ensures Tracks() && TracksLine() && position == old(position) + 1
    {
      hide Utf8.ValidPrefix;
      ghost var p := Text()[..position];
      assert Text()[..position + 1] == p + [b];
      NewlinesSnoc(p, b);
      ColumnSnoc(p, b);
      position := position + 1;
      if b == LF {
        line := line + 1;
        lastColumn := column;
        column := 0;
      } else if Utf8.CheckFirst(b) != 0 {
        column := column + 1;
      }
    }

    /** stream_unget: puts back the byte the last Get returned; a no-op on the end codes. */
    method Unget(c: int)
      requires Valid()
      requires c == STATE_EOF || c == STATE_ERROR || (CanUnget() && c == Signed(Text()[position - 1]))
      modifies this`position, this`line, this`column, this`bufferPos
      ensures Valid()
      ensures c == STATE_EOF || c == STATE_ERROR ==> position == old(position)
      ensures c != STATE_EOF && c != STATE_ERROR ==> position == old(position) - 1
    {
      hide Utf8.ValidPrefix, Newlines, Column;
      if c == STATE_EOF || c == STATE_ERROR {
        return;
      }
      ghost var p := Text()[..position - 1];
      ghost var b := Text()[position - 1];
      assert Text()[..position] == p + [b];
      NewlinesSnoc(p, b);
      ColumnSnoc(p, b);
      position := position - 1;
      if c == 10 {
        line := line - 1;
        column := lastColumn;
      } else if Utf8.CheckFirst(if c < 0 then c + 256 else c) != 0 {
        column := column - 1;
      }
      bufferPos := bufferPos - 1;
    }

    /** One turn of lex_save_cached: the next byte still buffered, taken without counting a column. */
    method TakeCached() returns (b: byte)
      requires Valid() && CanUnget() && buffer[bufferPos] != 0
      modifies this`bufferPos, this`position
      ensures Valid() && CanUnget() && position == old(position) + 1
      ensures bufferPos == old(bufferPos) + 1 && bufferPos <= count
      ensures position <= |Text()| && b == Text()[position - 1]
    {
      hide Utf8.ValidPrefix, Newlines, Column;
      assert bufferPos < count;
      BufferedByte();
      b := buffer[bufferPos];
      ghost var p := Text()[..position];
      assert Text()[..position + 1] == p + [b];
      NewlinesSnoc(p, b);
      ColumnSnoc(p, b);
      assert Utf8.IsContinuation(b);
      bufferPos := bufferPos + 1;
      position := position + 1;
    }

    /** When the buffered character has been read, the stream stands between two characters. */
    lemma BehindChar()
      requires Valid() && state == STATE_OK && buffer[bufferPos] == 0
      ensures position == start + count
      ensures forall i :: start < i < position ==> Utf8.IsContinuation(Text()[i])
      ensures position < |Text()| ==> !Utf8.IsContinuation(Text()[position])
    {
      hide Utf8.ValidPrefix, Utf8.DecodeOne, Newlines, Column;
      if bufferPos < count {
        BufferedByte();
      }
      if position < |Text()| {
        assert Text()[position] == Utf8.ValidPrefix(data[position..])[0];
        StartsChar(data[position..]);
      }
    }

    static lemma StartsChar(rest: bytes)
      requires Utf8.ValidPrefix(rest) != []
      ensures !Utf8.IsContinuation(Utf8.ValidPrefix(rest)[0])
    {
      Utf8.EncodeInvertsDecode(rest);
      var c := Utf8.DecodeOne(rest).value;
      assert Utf8.ValidPrefix(rest)[0] == rest[..c.size][0] == Utf8.Encode(c.cp)[0];
    }
  }
}
