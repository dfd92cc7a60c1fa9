# OSDP.Logging frame decoder in Dafny

OSDP.Logging listens on a serial line carrying OSDP (Open Supervised Device
Protocol) traffic between an access-control panel and its readers. It logs
every frame whose checksum is valid, to the console and to a file; poll
acknowledgements only advance a progress indicator on the console and are
not written to the log file. A frame with a wrong checksum or a rejected
header gets only a fixed "not valid" console line. This project models the
core of that logger and proves properties of it:

- **Frame decoding** (`OsdpFrame`, class `OSDP`). The main loop has
  already read the 0x53 start byte. The constructor then:
  - reads the five header bytes: address, length low byte, length high
    byte, control, command/reply;
  - takes the little-endian length and rejects one outside [7, 1440];
  - reads `Length - 7` data bytes;
  - copies the data and the header into `Message` behind the start byte;
  - reads one final byte into the last slot;
  - sets `Address`, `Ctrl`, `CmdReply`, `Checksum`, `ValidMessage` and
    `PollAck` (command/reply 0x40 or 0x60).

  `Decode` gives the constructor's outcome as a function of the bytes the
  port will deliver. Class `Osdp` is the constructor itself, working on
  arrays and a `SerialPort` object, and it is proved equal to `Decode`.
  `Encode` is the sender's side: decoding an encoded frame gives its fields
  back.
- **Integrity checks** (`Checks`):
  - `CheckCKSUM`: the two's-complement negation of the byte sum of all
    bytes but the last, cast to a byte. `ValidMessage` is true when the
    final byte equals it.
  - `CheckCRC`: CRC-16 with polynomial 0x1021 and initial value 0xFFFF,
    processed most significant bit first. It is present but never called.
  - Each is a method with the loops of `CheckCKSUM` or `CheckCRC`, proved
    equal to a specification function, with lemmas about that function.
- **Rendering and progress indicator** (`SerialTool`):
  - `BytesToHexString` writes two upper-case hex digits per byte, joined
    by a separator (";" by default). A parser reads a rendering back:
    rendering and parsing are inverse to each other.
  - `CursorSpin` is the `counter`/`skip` state machine of the
    progress-dot indicator.
- **Support modules.** `Bytes` holds the .NET `byte`, the unchecked
  `(byte)` cast and bit flips. `SerialPorts` holds the receive side of
  `System.IO.Ports.SerialPort`: a byte sequence with a read cursor, on
  which `Read` and `ReadByte` are full reads.

The OSDP standard lets a bit of the control byte select a 16-bit CRC with
a two-byte trailer instead of the checksum. This code ignores that bit:
- only the checksum decides `ValidMessage`;
- exactly one trailer byte is read;
- `CheckCRC` is never used;
- a rejected header still yields an `OSDP` object, with only `Length`
  set, null arrays and false flags.

## Model

| member | source | states |
|---|---|---|
| OsdpFrame.HeaderLength | OSDP.Logging/OSDP.cs:22 | the length is little-endian: its low byte is header byte 1 and its high byte is header byte 2; it is below 2^16, so the `ushort` cast loses nothing |
| OsdpFrame.CheckHeader | OSDP.Logging/OSDP.cs:55-58 | defines `CheckHeader`: the length lies in [7, 1440] (its bounds are stated by `HeaderBounds`) |
| OsdpFrame.IsPollAck | OSDP.Logging/OSDP.cs:45 | defines `PollAck`: command/reply is 0x40 or 0x60 |
| OsdpFrame.Frame.Consistent | OSDP.Logging/OSDP.cs:7-15 | defines the relations between an accepted object's properties and its `Message` (established by `DecodeLayout`) |
| OsdpFrame.Osdp.View | OSDP.Logging/OSDP.cs:7-15 | defines the object's properties as a value: rejected when the arrays are null, otherwise the frame they and the fields hold |
| OsdpFrame.Decode | OSDP.Logging/OSDP.cs:17-48 | the header is rejected exactly when its length is outside [7, 1440]; in both outcomes the recorded `Length` is the header's length |
| OsdpFrame.DecodeLayout | OSDP.Logging/OSDP.cs:26-45 | an accepted frame is laid out as the constructor builds it: start byte, header, data at 6..Length-2, fields read from `Message`, `ValidMessage` iff the checksum matches, `PollAck` iff 0x40 or 0x60; `Message` is 0x53 followed by exactly the bytes consumed |
| OsdpFrame.DecodeConsumes | OSDP.Logging/OSDP.cs:20-38 | a rejected header consumes 5 bytes; an accepted one consumes 5 + (Length - 7) + 1 bytes and carries Length - 7 data bytes |
| OsdpFrame.DecodeEncode | OSDP.Logging/OSDP.cs:17-53 | round trip: an encoded frame followed by any bytes decodes to its own address, control, command/reply, data and length; it is valid, `PollAck` is as the command says, and exactly the encoded bytes are consumed |
| OsdpFrame.ValidIffEncoded | OSDP.Logging/OSDP.cs:44-53 | a decoded frame is valid exactly when its message is the encoding of its own fields |
| OsdpFrame.ValidIffTrailer | OSDP.Logging/OSDP.cs:50-53 | of two messages that agree up to the trailer, the second carrying its checksum, the first is valid exactly when they are equal |
| OsdpFrame.SmallestPollAck | OSDP.Logging/OSDP.cs:22-45 | header 00 07 00 00 40 plus a final byte gives an accepted poll acknowledgement whose message holds all seven bytes; it is valid exactly when the final byte is 0x66 |
| OsdpFrame.HeaderBounds | OSDP.Logging/OSDP.cs:55-58 | lengths 6 and 1441 are rejected; 7 and 1440 are accepted |
| OsdpFrame.ArrayCopy | OSDP.Logging/OSDP.cs:34-37 | `Array.Copy` puts the copied slice at the destination index and leaves the rest of the destination untouched |
| OsdpFrame.CopyIntoMessage | OSDP.Logging/OSDP.cs:32-37 | after both copies, everything in `Message` but the last slot is 0x53, then the header, then the data; the last slot is untouched |
| OsdpFrame.ReadBody | OSDP.Logging/OSDP.cs:26-38 | `Data` holds the next Length - 7 bytes of the line; `Message` is 0x53, the header, the data and the byte after them; the cursor advances by Length - 6 |
| OsdpFrame.Osdp.constructor | OSDP.Logging/OSDP.cs:17-48 | the object is what `Decode` gives for the unread bytes; the port advances by exactly the bytes consumed; a rejected header leaves null arrays, zero fields and false flags |
| SerialPorts.SerialPort.Read | OSDP.Logging/OSDP.cs:20-30 | the next `count` bytes of the line land at `offset`; the rest of the buffer is untouched and the cursor advances by `count` |
| SerialPorts.SerialPort.ReadByte | OSDP.Logging/OSDP.cs:38 | returns the next byte of the line and advances the cursor by one |
| Bytes.ToByte | OSDP.Logging/OSDP.cs:96 | the `(byte)` cast keeps the value modulo 256 |
| Checks.Sum | OSDP.Logging/OSDP.cs:85-91 | the `calcSum` accumulation; the sum of n bytes is at most 255 n |
| Checks.Covered | OSDP.Logging/OSDP.cs:86-88 | defines the bytes the checksum loop visits: all but the last, none for an empty array |
| Checks.IsValidMessage | OSDP.Logging/OSDP.cs:50-53 | defines `CheckMessage`: the last byte equals the checksum of the others (used by `Frame.Consistent`) |
| Checks.Cksum | OSDP.Logging/OSDP.cs:83-97 | the checksum plus the sum of all bytes but the last is a multiple of 256 |
| Checks.CheckCksum | OSDP.Logging/OSDP.cs:83-97 | the loop with `~` and `++` returns `Cksum` of the array, including for an empty array |
| Checks.CksumIgnoresLast | OSDP.Logging/OSDP.cs:86-91 | the checksum does not depend on the last byte |
| Checks.CksumDeterminedBySum | OSDP.Logging/OSDP.cs:88-96 | two checksums are equal iff the covered sums agree modulo 256 |
| Checks.NegatedByte | OSDP.Logging/OSDP.cs:93-96 | the byte of the negated sum is 0 for a multiple of 256 and 256 minus the remainder otherwise |
| Checks.SumUpdate | OSDP.Logging/OSDP.cs:88-91 | replacing one byte changes the sum by exactly the difference |
| Checks.SingleByteChangeDetected | OSDP.Logging/OSDP.cs:50-53 | changing any single byte of a valid message, trailer included, makes it invalid |
| Checks.SingleBitFlipDetected | OSDP.Logging/OSDP.cs:50-53 | flipping any single bit of a valid message makes it invalid |
| Checks.CrcBit | OSDP.Logging/OSDP.cs:70-73 | defines one pass of the inner loop: shift the register left by one within 16 bits, and XOR in 0x1021 when the bit shifted out differs from the input bit |
| Checks.Crc | OSDP.Logging/OSDP.cs:60-79 | defines the register after the whole input, bit by bit from 0xFFFF (its properties are stated by `CheckCrc`, `CrcAppend`, `CrcEmpty` and `CrcCheckValue`) |
| Checks.CheckCrc | OSDP.Logging/OSDP.cs:60-79 | the nested byte and bit loops compute the register `Crc` defines, bit by bit and most significant first |
| Checks.CrcUpdateAppend | OSDP.Logging/OSDP.cs:65-75 | the register over `a + b` is the register over `a`, carried on over `b` |
| Checks.CrcAppend | OSDP.Logging/OSDP.cs:60-79 | `CheckCRC` of a concatenation continues from the CRC of the first part |
| Checks.CrcEmpty | OSDP.Logging/OSDP.cs:63 | no data gives the initial value 0xFFFF |
| Checks.CrcCheckValue | OSDP.Logging/OSDP.cs:60-79 | the CRC of ASCII "123456789" is 0x29B1, the standard check value of CRC-16 with polynomial 0x1021 and initial value 0xFFFF |
| SerialTool.ToHex2 | OSDP.Logging/SerialTool.cs:32 | `X2` gives exactly two upper-case hex digits, whose value is the byte |
| SerialTool.DigitValue | OSDP.Logging/SerialTool.cs:32 | the value of a hex digit is below 16, and rendering it gives the digit back |
| SerialTool.Join | OSDP.Logging/SerialTool.cs:32 | defines `string.Join`: the parts with the separator between neighbours |
| SerialTool.Hexes | OSDP.Logging/SerialTool.cs:32 | defines `bytes.Select(i => i.ToString("X2"))`: `ToHex2` of each byte, in order |
| SerialTool.BytesToHexString | OSDP.Logging/SerialTool.cs:30-33 | defines the rendering, ";" as the default separator (its properties are stated by the lemmas below) |
| SerialTool.BytesToHexStringCons | OSDP.Logging/SerialTool.cs:30-33 | for two or more bytes, the rendering is the first byte's digits, the separator, then the rendering of the rest |
| SerialTool.BytesToHexStringLength | OSDP.Logging/SerialTool.cs:30-33 | the rendering is empty for no bytes; otherwise it has 2 characters per byte plus one separator between neighbours |
| SerialTool.BytesToHexStringAt | OSDP.Logging/SerialTool.cs:30-33 | byte i is rendered, in order, at offset i * (2 + separator length); a separator follows every byte but the last |
| SerialTool.ParseBytesToHexString | OSDP.Logging/SerialTool.cs:30-33 | for every separator, parsing the rendering gives the bytes back |
| SerialTool.ParsedIsRendering | OSDP.Logging/SerialTool.cs:30-33 | a string that parses is the rendering of its parse |
| SerialTool.SpinStep | OSDP.Logging/SerialTool.cs:13-24 | defines one call of `CursorSpin` on `counter` and `skip` (its properties are stated by `SpinStepSpec`) |
| SerialTool.SpinStepSpec | OSDP.Logging/SerialTool.cs:13-24 | `skip` advances and resets exactly when it reaches `delay`; only then does `counter` advance, modulo the five frames; `counter` stays a valid index |
| SerialTool.SpinsPeriod | OSDP.Logging/SerialTool.cs:7-24 | after q periods of `delay` calls and r < `delay` more calls, `counter` is q mod 5 and `skip` is r |
| SerialTool.SpinsValue | OSDP.Logging/SerialTool.cs:7-24 | after n calls, `counter` is (n / delay) mod 5 and `skip` is n mod delay, so `skip` is in [0, delay) |
| SerialTool.Spinner.constructor | OSDP.Logging/SerialTool.cs:7-8 | both static fields start at 0 |
| SerialTool.Spinner.CursorSpin | OSDP.Logging/SerialTool.cs:10-28 | the fields move by one `SpinStep`; the frame written is `sequence[counter]`, whose index is always in range |

## Left out

- `Program.cs` (the main loop) is not part of this model. It opens the port, scans for the 0x53 start byte and dispatches to console or file logging.
- `ConsoleLog`, `FileLog` and `Timestamp` are left out: they do console output, file I/O and read the clock.
- `CheckComPort` is left out: it enumerates the machine's ports and writes to the console.
- SerialTool.Spinner.CursorSpin: does not model `Console.Write` or the cursor move. Instead it returns the frame it would write.
- SerialTool.Spinner.CursorSpin: does not model the 32-bit wrap of `skip`. With a `delay` of zero or below, `skip` never equals `delay`. In C# it then wraps after 2^31 calls; here it is unbounded.
- OsdpFrame.Osdp.constructor: requires the port to hold every byte the constructor asks for (`Complete`). Short reads, read timeouts and transport exceptions of `SerialPort.Read` are not modelled.
- OsdpFrame.Osdp.constructor: `Checksum` is a `ushort` property in `OSDP.cs`. It only ever holds a byte, so it is a `byte` here.
- OsdpFrame.ArrayCopy: the argument exceptions of `Array.Copy` are not modelled. The callers' bounds rule them out.
- Checks.CheckCksum: does not model the 32-bit wrap-around of the `int` accumulator. In the constructor's call it cannot wrap: `Sum` is at most 255 per byte, and a message has at most 1440 bytes, so `calcSum` stays below 367,200. On longer arrays a wrap would change the sum by a multiple of 2^32, which is a multiple of 256, so the byte result would be the same.
- Checks.CheckCrc: it is proved equal to the bit-serial `Crc`, which shares `CrcBit` with it. `Crc` is checked against the standard check value only. No byte-wise or polynomial-remainder reference is proved equal to it.
- The control-bit selection between checksum and CRC, and a two-byte CRC trailer, are not modelled: the code has neither.
- OsdpFrame.Encode has no counterpart in the C# code. It is the sender's side of a frame, which `Decode` is proved to invert.
- `SerialTool.ParseHexString` has no counterpart in the C# code. It exists only as the inverse that `BytesToHexString` is proved against.
