/** The OSDP frame decoder of class `OSDP`: after the caller has read the
    0x53 start byte, the constructor reads the five header bytes (address,
    length low, length high, control, command/reply), rejects a length
    outside [7, 1440], reads `Length - 7` data bytes and one final byte,
    assembles `Message` and derives the fields, `ValidMessage` (checksum)
    and `PollAck`.

    `Decode` states the constructor's outcome as a function of the bytes the
    port will deliver; `Encode` is the sender's side, the frame a sender
    puts on the line, and `Decode` inverts it; class `Osdp` is the
    constructor itself, over arrays. */
module OsdpFrame {
  import opened Bytes
  import opened Checks
  import opened SerialPorts

  const Start: byte := 0x53
  const HeaderSize: nat := 5
  const MinLength: nat := 7
  const MaxLength: nat := 1440

  /** `(ushort)(header[1] + (header[2] << 8))`: the length is the
      little-endian value of header bytes 1 and 2. It always fits 16 bits,
      so the `ushort` cast loses nothing. */
  function HeaderLength(header: seq<byte>): (n: nat)
    requires |header| == HeaderSize
    ensures n < 0x1_0000
    ensures n % 0x100 == header[1] && n / 0x100 == header[2]
  {
    header[1] as int + header[2] as int * 0x100
  }

  /** `CheckHeader`. */
  predicate CheckHeader(length: nat)
  {
    MinLength <= length <= MaxLength
  }

  /** The `PollAck` expression: command/reply 0x40 or 0x60. */
  predicate IsPollAck(cmdReply: byte)
  {
    cmdReply == 0x40 || cmdReply == 0x60
  }

  /** The properties of an `OSDP` object whose header was accepted. */
  datatype Frame = Frame(
    address: byte,
    length: nat,
    ctrl: byte,
    cmdReply: byte,
    data: seq<byte>,
    checksum: byte,
    message: seq<byte>,
    validMessage: bool,
    pollAck: bool)
  {
    /** The layout every accepted frame has. */
    predicate Consistent()
    {
      CheckHeader(length) &&
      |message| == length &&
      message[0] == Start &&
      HeaderLength(message[1..6]) == length &&
      data == message[6..length - 1] &&
      address == message[1] &&
      ctrl == message[4] &&
      cmdReply == message[5] &&
      checksum == message[length - 1] &&
      (validMessage <==> IsValidMessage(message)) &&
      (pollAck <==> IsPollAck(cmdReply))
    }
  }

  /** The outcome of the constructor: the header was rejected (only
      `Length` is set), or a frame was assembled. */
  datatype Decoded = Rejected(length: nat) | Accepted(frame: Frame)

  /** How many bytes the constructor takes from the port. */
  function Consumed(d: Decoded): nat
  {
    match d
    case Rejected(_) => HeaderSize
    case Accepted(f) => HeaderSize + |f.data| + 1
  }

  /** The port holds at least the bytes the constructor will read: the
      header, and for an accepted header the data and the final byte. */
  predicate Complete(input: seq<byte>)
  {
    |input| >= HeaderSize &&
    (CheckHeader(HeaderLength(input[..HeaderSize])) ==> |input| >= HeaderLength(input[..HeaderSize]) - 1)
  }

  /** What the constructor makes of the bytes following the start byte. */
  function Decode(input: seq<byte>): (r: Decoded)
    requires Complete(input)
    ensures r.Rejected? <==> !CheckHeader(HeaderLength(input[..HeaderSize]))
    ensures r.Rejected? ==> r.length == HeaderLength(input[..HeaderSize])
    ensures r.Accepted? ==> r.frame.length == HeaderLength(input[..HeaderSize])
  {
    var header := input[..HeaderSize];
    var length := HeaderLength(header);
    if !CheckHeader(length) then
      Rejected(length)
    else
      var data := input[HeaderSize..HeaderSize + (length - MinLength)];
      var last := input[length - 2];
      var message := [Start] + header + data + [last];
      Accepted(Frame(message[1], length, message[4], message[5], data, message[length - 1],
                     message, message[length - 1] == Cksum(message), IsPollAck(message[5])))
  }

  /** An accepted frame has the layout of `Consistent`, and its message is
      the start byte followed by exactly the bytes the decoder consumed. */
  lemma DecodeLayout(input: seq<byte>)
    requires Complete(input)
    ensures var r := Decode(input);
            r.Accepted? ==> r.frame.Consistent() && r.frame.message == [Start] + input[..Consumed(r)]
  {
    var length := HeaderLength(input[..HeaderSize]);
    if CheckHeader(length) {
      var data := input[HeaderSize..HeaderSize + (length - MinLength)];
      var message := [Start] + input[..HeaderSize] + data + [input[length - 2]];
      assert message[1..6] == input[..HeaderSize] && message[6..length - 1] == data;
      assert message == [Start] + input[..length - 1];
    }
  }

  /** The bytes a sender puts on the line after the start byte for a frame
      carrying `data`: the header with the little-endian length, the data,
      and the checksum of everything before it. */
  function Encode(address: byte, ctrl: byte, cmdReply: byte, data: seq<byte>): (w: seq<byte>)
    requires |data| <= MaxLength - MinLength
    ensures |w| == |data| + MinLength - 1
  {
    var length := |data| + MinLength;
    var body := [address, length % 0x100, length / 0x100, ctrl, cmdReply] + data;
    body + [ToByte(-(Sum([Start] + body) as int))]
  }

  /** Round trip: decoding an encoded frame, whatever follows it on the
      line, gives back its fields, consumes exactly the encoded bytes and
      finds the checksum valid. */
  lemma DecodeEncode(address: byte, ctrl: byte, cmdReply: byte, data: seq<byte>, rest: seq<byte>)
    requires |data| <= MaxLength - MinLength
    ensures Complete(Encode(address, ctrl, cmdReply, data) + rest)
    ensures var r := Decode(Encode(address, ctrl, cmdReply, data) + rest);
            r.Accepted? &&
            r.frame.address == address && r.frame.ctrl == ctrl && r.frame.cmdReply == cmdReply &&
            r.frame.data == data && r.frame.length == |data| + MinLength &&
            r.frame.validMessage && r.frame.pollAck == IsPollAck(cmdReply) &&
            Consumed(r) == |Encode(address, ctrl, cmdReply, data)|
  {
    var w := Encode(address, ctrl, cmdReply, data);
    var input := w + rest;
    EncodedInput(address, ctrl, cmdReply, data, rest);
    EncodedChecksum(address, ctrl, cmdReply, data);
    DecodeAccepted(input, data, [Start] + w);
  }

  /** Where the fields of an encoded frame sit on the line. */
  lemma EncodedInput(address: byte, ctrl: byte, cmdReply: byte, data: seq<byte>, rest: seq<byte>)
    requires |data| <= MaxLength - MinLength
    ensures var w := Encode(address, ctrl, cmdReply, data);
            var input := w + rest;
            var length := |data| + MinLength;
            |input| >= length - 1 &&
            HeaderLength(input[..HeaderSize]) == length &&
            input[HeaderSize..HeaderSize + |data|] == data &&
            [Start] + input[..HeaderSize] + data + [input[length - 2]] == [Start] + w
  {
    var w := Encode(address, ctrl, cmdReply, data);
    var input := w + rest;
    var length := |data| + MinLength;
    var body := [address, length % 0x100, length / 0x100, ctrl, cmdReply] + data;
    assert w == body + [w[length - 2]];
    assert input[..length - 1] == w;
    assert input[..HeaderSize] == body[..HeaderSize] == [address, length % 0x100, length / 0x100, ctrl, cmdReply];
    assert input[HeaderSize..HeaderSize + |data|] == body[HeaderSize..] == data;
  }

  /** The encoded message's final byte is its checksum, and its header
      fields are the ones encoded. */
  lemma EncodedChecksum(address: byte, ctrl: byte, cmdReply: byte, data: seq<byte>)
    requires |data| <= MaxLength - MinLength
    ensures var m := [Start] + Encode(address, ctrl, cmdReply, data);
            var length := |data| + MinLength;
            |m| == length && m[length - 1] == Cksum(m) &&
            m[1] == address && m[4] == ctrl && m[5] == cmdReply
  {
    var length := |data| + MinLength;
    var body := [address, length % 0x100, length / 0x100, ctrl, cmdReply] + data;
    var m := [Start] + Encode(address, ctrl, cmdReply, data);
    assert m == [Start] + body + [m[length - 1]];
    assert Covered(m) == [Start] + body;
  }

  /** A decoded frame is valid exactly when its message is the encoding of
      its own fields: the checksum pins down the trailer byte. */
  lemma ValidIffEncoded(f: Frame)
    requires f.Consistent()
    ensures f.validMessage <==> f.message == [Start] + Encode(f.address, f.ctrl, f.cmdReply, f.data)
  {
    FramePrefix(f);
    EncodedChecksum(f.address, f.ctrl, f.cmdReply, f.data);
    EncodedPrefix(f.address, f.ctrl, f.cmdReply, f.data);
    ValidIffTrailer(f.message, [Start] + Encode(f.address, f.ctrl, f.cmdReply, f.data));
  }

  /** Two messages that agree up to their trailers, the second with a
      valid checksum: the first is valid exactly when they are equal. */
  lemma ValidIffTrailer(m: seq<byte>, e: seq<byte>)
    requires |m| == |e| > 0 && m[..|m| - 1] == e[..|e| - 1]
    requires e[|e| - 1] == Cksum(e)
    ensures IsValidMessage(m) <==> m == e
  {
    var n := |m|;
    assert m == m[..n - 1] + [m[n - 1]] && e == e[..n - 1] + [e[n - 1]];
    CksumIgnoresLast(m[..n - 1], m[n - 1], e[n - 1]);
  }

  /** All of an encoded message but its trailer is the start byte, the
      header fields and the data. */
  lemma EncodedPrefix(address: byte, ctrl: byte, cmdReply: byte, data: seq<byte>)
    requires |data| <= MaxLength - MinLength
    ensures var length := |data| + MinLength;
            ([Start] + Encode(address, ctrl, cmdReply, data))[..length - 1] ==
            [Start] + [address, length % 0x100, length / 0x100, ctrl, cmdReply] + data
  {
  }

  /** All of a consistent frame's message but the trailer is the start
      byte, the header fields and the data. */
  lemma FramePrefix(f: Frame)
    requires f.Consistent()
    ensures f.message[..f.length - 1] ==
            [Start] + [f.address, f.length % 0x100, f.length / 0x100, f.ctrl, f.cmdReply] + f.data
  {
    var m, n := f.message, f.length;
    assert m[1..6] == [f.address, n % 0x100, n / 0x100, f.ctrl, f.cmdReply];
    assert m[..n - 1] == [m[0]] + m[1..6] + m[6..n - 1];
  }

  /** The decoder reads no further than the header when it rejects it, and
      exactly `Length - 1` bytes when it accepts. */
  lemma DecodeConsumes(input: seq<byte>)
    requires Complete(input)
    ensures var r := Decode(input);
            (r.Rejected? ==> Consumed(r) == HeaderSize) &&
            (r.Accepted? ==> Consumed(r) == HeaderSize + (r.frame.length - MinLength) + 1 &&
                             |r.frame.data| == r.frame.length - MinLength)
  {
  }

  /** A poll acknowledgement with the smallest length and the right
      checksum byte (0x66) is valid; with any other final byte it is not,
      but the message is still assembled. */
  lemma SmallestPollAck(last: byte)
    ensures var r := Decode([0x00, 0x07, 0x00, 0x00, 0x40, last]);
            r.Accepted? && r.frame.pollAck &&
            r.frame.message == [0x53, 0x00, 0x07, 0x00, 0x00, 0x40, last] &&
            (r.frame.validMessage <==> last == 0x66)
  {
    var input: seq<byte> := [0x00, 0x07, 0x00, 0x00, 0x40, last];
    var m: seq<byte> := [0x53, 0x00, 0x07, 0x00, 0x00, 0x40, last];
    assert HeaderLength(input[..HeaderSize]) == MinLength;
    assert m == [Start] + input[..HeaderSize] + [] + [input[5]];
    DecodeAccepted(input, [], m);
    assert Covered(m) == [0x53, 0x00, 0x07, 0x00, 0x00, 0x40];
    PollAckSum();
  }

  /** The sum the checksum of that poll acknowledgement covers. */
  lemma PollAckSum()
    ensures Sum([0x53, 0x00, 0x07, 0x00, 0x00, 0x40]) == 0x9A
  {
    var s: seq<byte> := [];
    SumSnoc(s, 0x53);
    s := s + [0x53];
    SumSnoc(s, 0x00);
    s := s + [0x00];
    SumSnoc(s, 0x07);
    s := s + [0x07];
    SumSnoc(s, 0x00);
    s := s + [0x00];
    SumSnoc(s, 0x00);
    s := s + [0x00];
    SumSnoc(s, 0x40);
    s := s + [0x40];
    assert s == [0x53, 0x00, 0x07, 0x00, 0x00, 0x40];
  }

  /** Lengths 6 and 1441 are rejected; 7 and 1440 are accepted. */
  lemma HeaderBounds()
    ensures !CheckHeader(6) && CheckHeader(7) && CheckHeader(1440) && !CheckHeader(1441)
  {
  }

  /** `Decode` of an accepted header, given the data and message the
      constructor assembles. */
  lemma DecodeAccepted(input: seq<byte>, data: seq<byte>, message: seq<byte>)
    requires Complete(input) && CheckHeader(HeaderLength(input[..HeaderSize]))
    requires data == input[HeaderSize..HeaderSize + (HeaderLength(input[..HeaderSize]) - MinLength)]
    requires message == [Start] + input[..HeaderSize] + data + [input[HeaderLength(input[..HeaderSize]) - 2]]
    ensures var length := HeaderLength(input[..HeaderSize]);
            |message| == length &&
            Decode(input) == Accepted(Frame(message[1], length, message[4], message[5], data,
                                            message[length - 1], message,
                                            message[length - 1] == Cksum(message), IsPollAck(message[5])))
  {
  }

  /** `Array.Copy(src, srcIndex, dst, dstIndex, count)`: the `count`
      elements of `src` from `srcIndex` land in `dst` from `dstIndex`; the
      rest of `dst` is untouched. */
  method ArrayCopy(src: array<byte>, srcIndex: nat, dst: array<byte>, dstIndex: nat, count: nat)
    requires srcIndex + count <= src.Length && dstIndex + count <= dst.Length
    modifies dst
    ensures dst[..] == old(dst[..dstIndex]) + old(src[srcIndex..srcIndex + count]) + old(dst[dstIndex + count..])
  {
    forall i | dstIndex <= i < dstIndex + count {
      dst[i] := src[srcIndex + (i - dstIndex)];
    }
  }

  /** The accepted-header part of the constructor: allocate `Message` and
      `Data`, read the data bytes, copy them and the header into `Message`
      behind the start byte, and read the final byte into its last slot. */
  method ReadBody(sp: SerialPort, header: array<byte>, len: nat) returns (msg: array<byte>, dat: array<byte>)
    requires sp.Valid() && header.Length == HeaderSize
    requires MinLength <= len && len - 1 - HeaderSize <= |sp.Unread()|
    modifies sp
    ensures sp.Valid() && sp.input == old(sp.input) && sp.pos == old(sp.pos) + (len - 1 - HeaderSize)
    ensures fresh(msg) && fresh(dat)
    ensures dat[..] == old(sp.Unread())[..len - MinLength]
    ensures msg[..] == [Start] + header[..] + dat[..] + [old(sp.Unread())[len - MinLength]]
  {
    ghost var input := sp.Unread();
    msg := new byte[len];
    msg[0] := Start;

    dat := new byte[len - MinLength];
    sp.Read(dat, 0, len - MinLength);
    assert dat[..] == input[..len - MinLength];

    CopyIntoMessage(header, dat, msg);

    var last := sp.ReadByte();
    msg[len - 1] := last;
    assert msg[..] == msg[..len - 1] + [last];
  }

  /** The two `Array.Copy` calls: the data behind the header slots, then
      the header behind the start byte. Only the last slot is left. */
  method CopyIntoMessage(header: array<byte>, dat: array<byte>, msg: array<byte>)
    requires header.Length == HeaderSize && msg.Length == dat.Length + MinLength
    requires msg[0] == Start && msg != header && msg != dat
    modifies msg
    ensures msg[..msg.Length - 1] == [Start] + header[..] + dat[..]
    ensures msg[msg.Length - 1] == old(msg[msg.Length - 1])
  {
    var len := msg.Length;
    ghost var started := msg[..];
    if len > MinLength {
      ArrayCopy(dat, 0, msg, 6, len - MinLength);
    }
    ghost var withData := msg[..];
    assert withData[..1] == [Start] && withData[6..len - 1] == dat[..];
    ArrayCopy(header, 0, msg, 1, HeaderSize);
    assert msg[..len - 1] == msg[..1] + msg[1..6] + msg[6..len - 1];
  }

  /** An `OSDP` object. Its properties are get-only; the two arrays are null
      when the header was rejected. */
  class Osdp {
    const address: byte
    const length: nat
    const ctrl: byte
    const cmdReply: byte
    const data: array?<byte>
    const checksum: byte
    const message: array?<byte>
    const validMessage: bool
    const pollAck: bool

    /** The object as a value. */
    function View(): Decoded
      reads message, data
    {
      if message == null || data == null then
        Rejected(length)
      else
        Accepted(Frame(address, length, ctrl, cmdReply, data[..], checksum, message[..], validMessage, pollAck))
    }

    /** The constructor `OSDP(SerialPort sp)`, called once the start byte has
        been read from `sp`. */
    constructor (sp: SerialPort)
      requires sp.Valid() && Complete(sp.Unread())
      modifies sp
      ensures sp.Valid() && sp.input == old(sp.input)
      ensures View() == Decode(old(sp.Unread()))
      ensures sp.pos == old(sp.pos) + Consumed(View())
      ensures message == null ==> data == null && address == 0 && ctrl == 0 && cmdReply == 0 &&
                                  checksum == 0 && !validMessage && !pollAck
      ensures message != null ==> fresh(message) && fresh(data)
    {
      ghost var input := sp.Unread();
      var header := new byte[HeaderSize];
      sp.Read(header, 0, HeaderSize);
      assert header[..] == input[..HeaderSize];
      var len := HeaderLength(header[..]);
      length := len;
      if CheckHeader(len) {
        assert sp.Unread() == input[HeaderSize..];
        var msg, dat := ReadBody(sp, header, len);
        DecodeAccepted(input, dat[..], msg[..]);
        var cmd := msg[5];
        address, ctrl, cmdReply, checksum := msg[1], msg[4], cmd, msg[len - 1];
        var expected := CheckCksum(msg);
        var valid := msg[len - 1] == expected;  // CheckMessage
        var poll := IsPollAck(cmd);
        validMessage, pollAck := valid, poll;
        message, data := msg, dat;
      } else {
        address, ctrl, cmdReply, checksum := 0, 0, 0, 0;
        validMessage, pollAck := false, false;
        message, data := null, null;
      }
    }
  }
}
