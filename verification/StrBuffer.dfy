/** The growable, NUL-terminated byte buffer (jansson-2.3/src/strbuffer.c). */
module StrBuffers {
  import opened Bytes

  const MIN_SIZE: nat := 16
  const FACTOR: nat := 2
  const SIZE_MAX: nat := 0xFFFF_FFFF  // size_t of the 32-bit target

  class StrBuffer {
    var value: array<byte>
    var length: nat
    var size: nat

    ghost predicate Valid()
      reads this, value
    {
      && value.Length == size <= SIZE_MAX
      && length < size
      && value[length] == 0
    }

    ghost function Text(): bytes
      requires Valid()
      reads this, value
    {
      value[..length]
    }

    constructor ()
      ensures Valid() && fresh(value)
      ensures Text() == [] && size == MIN_SIZE
    {
      size := MIN_SIZE;
      length := 0;
      value := new byte[MIN_SIZE];
      new;
      value[0] := 0;
    }

    method Clear()
      requires Valid()
      modifies this`length, value
      ensures Valid() && Text() == []
    {
      length := 0;
      value[0] := 0;
    }

    /** Appends, or refuses (-1) exactly when doubling the buffer or the new length would overflow size_t. */
    method AppendBytes(data: bytes) returns (rc: int)
      requires Valid()
      modifies this, value
      ensures Valid() && (value == old(value) || fresh(value))
      ensures rc == if |data| >= old(size - length) &&
        (old(size) > SIZE_MAX / FACTOR || old(length) + |data| > SIZE_MAX - 1) then -1 else 0
      ensures rc == 0 ==> Text() == old(Text()) + data
      ensures rc != 0 ==> Text() == old(Text()) && size == old(size)
      ensures size <= old(size) || size <= FACTOR * (old(length) + |data|) || size == old(length) + |data| + 1
    {
      if |data| >= size - length {
        if size > SIZE_MAX / FACTOR || |data| > SIZE_MAX - 1 || length > SIZE_MAX - 1 - |data| {
          return -1;
        }
        var newSize := if size * FACTOR > length + |data| + 1 then size * FACTOR else length + |data| + 1;
        var newValue := new byte[newSize];
        forall i | 0 <= i < length {
          newValue[i] := value[i];
        }
        assert newValue[..length] == value[..length];
        value := newValue;
        size := newSize;
      }
      label grown:
      forall i | 0 <= i < |data| {
        value[length + i] := data[i];
      }
      assert value[..length] == old@grown(value[..length]);
      length := length + |data|;
      value[length] := 0;
      assert value[..length] == old(value[..length]) + data;
      rc := 0;
    }

    method AppendByte(b: byte) returns (rc: int)
      requires Valid()
      modifies this, value
      ensures Valid() && (value == old(value) || fresh(value))
      ensures old(size) <= SIZE_MAX / FACTOR ==> rc == 0
      ensures rc == 0 ==> Text() == old(Text()) + [b]
      ensures size <= old(size) || size <= FACTOR * (old(length) + 1)
    {
      rc := AppendBytes([b]);
    }

    /** The last byte, removed; NUL when there is none. */
    method Pop() returns (c: byte)
      requires Valid()
      modifies this`length, value
      ensures Valid()
      ensures old(Text()) == [] ==> c == 0 && Text() == []
      ensures old(Text()) != [] ==> old(Text()) == Text() + [c]
    {
      if length > 0 {
        length := length - 1;
        c := value[length];
        value[length] := 0;
      } else {
        c := 0;
      }
    }
  }
}
