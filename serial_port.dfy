/** The receive side of `System.IO.Ports.SerialPort` as the frame decoder
    uses it: a sequence of bytes the line will deliver, and a read cursor.
    Reads are full reads: a caller asks only for bytes that will arrive. */
module SerialPorts {
  import opened Bytes

  class SerialPort {
    /** Every byte the line delivers, in arrival order. */
    var input: seq<byte>
    /** How many of them have been read so far. */
    var pos: nat

    ghost predicate Valid()
      reads this
    {
      pos <= |input|
    }

    /** The bytes not yet read. */
    function Unread(): seq<byte>
      reads this
      requires Valid()
    {
      input[pos..]
    }

    constructor (input: seq<byte>)
      ensures Valid() && this.input == input && pos == 0
    {
      this.input := input;
      pos := 0;
    }

    /** `SerialPort.Read(buffer, offset, count)`: the next `count` bytes of
        the line land in `buffer[offset..offset + count]`; the rest of the
        buffer is untouched. */
    method Read(buffer: array<byte>, offset: nat, count: nat)
      requires Valid()
      requires offset + count <= buffer.Length
      requires count <= |Unread()|
      modifies this, buffer
      ensures Valid() && input == old(input) && pos == old(pos) + count
      ensures buffer[..] == old(buffer[..offset]) + old(Unread())[..count] + old(buffer[offset + count..])
    {
      forall i | offset <= i < offset + count {
        buffer[i] := input[pos + (i - offset)];
      }
      pos := pos + count;
    }

    /** `SerialPort.ReadByte()`: the next byte of the line. */
    method ReadByte() returns (b: byte)
      requires Valid()
      requires 1 <= |Unread()|
      modifies this
      ensures Valid() && input == old(input) && pos == old(pos) + 1
      ensures b == old(Unread())[0]
    {
      b := input[pos];
      pos := pos + 1;
    }
  }
}
