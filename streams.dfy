/**
 * The buffered reader `decrypt` pulls its input through: the input bytes
 * and a read position.
 */
module Streams {
  import opened BigEndian
  import opened Framing

  class BufferedReader {
    /** The whole input, as one byte sequence. */
    const data: seq<byte>
    /** How many bytes have been read so far. */
    var pos: nat

    ghost predicate Valid()
      reads this
    {
      pos <= |data|
    }

    /** The bytes not read yet. */
    function Remaining(): seq<byte>
      reads this
      requires Valid()
    {
      data[pos..]
    }

    constructor (input: seq<byte>)
      ensures Valid() && data == input && pos == 0
    {
      data := input;
      pos := 0;
    }

    /** `read(n)`: the next `n` bytes, fewer only at the end of the input; never past it. */
    method Read(n: nat) returns (bs: seq<byte>)
      requires Valid()
      modifies this
      ensures Valid()
      ensures bs == Prefix(old(Remaining()), n)
      ensures pos == old(pos) + |bs|
    {
      bs := Prefix(data[pos..], n);
      pos := pos + |bs|;
    }

    /** `chunks()`, concatenated: everything not read yet; the reader is then exhausted. */
    method Chunks() returns (rest: seq<byte>)
      requires Valid()
      modifies this
      ensures Valid()
      ensures rest == old(Remaining()) && pos == |data|
    {
      rest := data[pos..];
      pos := |data|;
    }
  }
}
