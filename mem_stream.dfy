/** The read-only stream that `fmemopen(data, size, "rb")` opens over the
    input packet: an immutable byte sequence and a read position. */
module MemStream {
  import opened LittleEndian

  function Min(a: nat, b: nat): (m: nat)
    ensures m <= a && m <= b && (m == a || m == b)
  {
    if a <= b then a else b
  }

  class Stream {
    const data: seq<byte>
    var pos: nat

    ghost predicate Valid()
      reads this
    {
      pos <= |data|
    }

    /** Number of bytes not read yet. */
    function Remaining(): (n: nat)
      reads this
      requires Valid()
      ensures pos + n == |data|
    {
      |data| - pos
    }

    /** fmemopen: the stream starts at the first byte of the buffer. */
    constructor Open(bytes: seq<byte>)
      ensures Valid() && data == bytes && pos == 0
    {
      data := bytes;
      pos := 0;
    }

    /** `fread(buf, 1, n, f)`, and also `fread(buf, n, 1, f)`, which reads
        the same bytes: as many of the next `n` bytes as remain are copied
        to the front of `buf`, the position moves past them, and the number
        copied is returned. A short read consumes the rest of the stream. */
    method ReadInto(buf: array<byte>, n: nat) returns (count: nat)
      requires Valid() && n <= buf.Length
      modifies this`pos, buf
      ensures Valid()
      ensures count == Min(n, old(Remaining()))
      ensures pos == old(pos) + count
      ensures buf[..count] == data[old(pos)..pos]
      ensures buf[count..] == old(buf[count..])
    {
      count := Min(n, |data| - pos);
      forall i | 0 <= i < count {
        buf[i] := data[pos + i];
      }
      pos := pos + count;
    }
  }
}
