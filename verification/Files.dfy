/** Files opened for reading, as the two media threads use them. */
module Files {
  import opened Bytes

  /** An open file. */
  class InputFile {
    const data: seq<byte>
    var pos: nat

    ghost predicate Valid()
      reads this
    {
      pos <= |data|
    }

    constructor (data: seq<byte>)
      ensures Valid() && pos == 0 && this.data == data
    {
      this.data := data;
      pos := 0;
    }

    predicate AtEnd()
      reads this
    {
      pos == |data|
    }

    /** How many of n octets a read would return. */
    function Available(n: nat): nat
      requires Valid()
      reads this
    {
      if n <= |data| - pos then n else |data| - pos
    }

    /** fread: at most n octets, at offset `at` of the buffer; the rest of the buffer keeps what it held. */
    method Read(buf: array<byte>, at: nat, n: nat) returns (size: nat)
      requires Valid()
      requires at + Available(n) <= buf.Length
      modifies this, buf
      ensures Valid()
      ensures size == old(Available(n))
      ensures pos == old(pos) + size
      ensures buf[..] == old(buf[..at]) + data[old(pos)..old(pos) + size] + old(buf[at + size..])
    {
      size := Available(n);
      CopyInto(buf, at, data[pos..pos + size]);
      pos := pos + size;
    }

    /** fseek from the current position. */
    method Seek(offset: int)
      requires Valid() && 0 <= pos + offset <= |data|
      modifies this
      ensures Valid() && pos == old(pos) + offset
    {
      pos := pos + offset;
    }
  }
}
