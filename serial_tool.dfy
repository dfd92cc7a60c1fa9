/** Class `SerialTool`: `BytesToHexString`, the rendering of a message as
    two upper-case hex digits per byte joined by a separator, and the
    `counter`/`skip` state of the `CursorSpin` progress indicator. */
module SerialTool {
  import opened Bytes

  datatype Option<T> = None | Some(value: T)

  // ---------------------------------------------------------------------
  // BytesToHexString
  // ---------------------------------------------------------------------

  /** A character of `0-9A-F`. */
  predicate IsHexDigit(c: char)
  {
    '0' <= c <= '9' || 'A' <= c <= 'F'
  }

  /** The upper-case hex digit of a value below 16. */
  function HexDigit(n: nat): (c: char)
    requires n < 16
    ensures IsHexDigit(c)
  {
    if n < 10 then ('0' as int + n) as char else ('A' as int + (n - 10)) as char
  }

  /** The value of a hex digit: the inverse of `HexDigit`. */
  function DigitValue(c: char): (n: nat)
    requires IsHexDigit(c)
    ensures n < 16 && HexDigit(n) == c
  {
    if c <= '9' then c as int - '0' as int else c as int - 'A' as int + 10
  }

  /** `b.ToString("X2")`: exactly two upper-case hex digits, high nibble first. */
  function ToHex2(b: byte): (s: string)
    ensures |s| == 2 && IsHexDigit(s[0]) && IsHexDigit(s[1])
    ensures 16 * DigitValue(s[0]) + DigitValue(s[1]) == b
  {
    [HexDigit(b / 16), HexDigit(b % 16)]
  }

  /** `string.Join(separator, parts)`. */
  function Join(separator: string, parts: seq<string>): string
  {
    if |parts| == 0 then ""
    else if |parts| == 1 then parts[0]
    else parts[0] + separator + Join(separator, parts[1..])
  }

  /** `bytes.Select(i => i.ToString("X2"))`. */
  function Hexes(bytes: seq<byte>): seq<string>
  {
    if bytes == [] then [] else [ToHex2(bytes[0])] + Hexes(bytes[1..])
  }

  /** `BytesToHexString(bytes, separator = ";")`. */
  function BytesToHexString(bytes: seq<byte>, separator: string := ";"): string
  {
    Join(separator, Hexes(bytes))
  }

  /** Unfolding the rendering by one byte. */
  lemma BytesToHexStringCons(bytes: seq<byte>, separator: string)
    requires |bytes| >= 2
    ensures BytesToHexString(bytes, separator) ==
            ToHex2(bytes[0]) + separator + BytesToHexString(bytes[1..], separator)
  {
    assert Hexes(bytes)[1..] == Hexes(bytes[1..]);
  }

  /** The rendering is empty for no bytes, and otherwise two characters per
      byte plus one separator between neighbours. */
  lemma {:induction false} BytesToHexStringLength(bytes: seq<byte>, separator: string)
    ensures |BytesToHexString(bytes, separator)| ==
            if bytes == [] then 0 else 2 * |bytes| + (|bytes| - 1) * |separator|
    decreases |bytes|
  {
    if |bytes| >= 2 {
      BytesToHexStringCons(bytes, separator);
      BytesToHexStringLength(bytes[1..], separator);
      var n, k := |bytes|, |separator|;
      assert (n - 1) * k == (n - 2) * k + k;
    } else if |bytes| == 1 {
      assert Hexes(bytes) == [ToHex2(bytes[0])];
    }
  }

  /** The start of the `i`-th of a row of fields of width `w`. */
  function Offset(i: nat, w: nat): nat
  {
    if i == 0 then 0 else Offset(i - 1, w) + w
  }

  lemma {:induction false} OffsetIsProduct(i: nat, w: nat)
    ensures Offset(i, w) == i * w
  {
    if i > 0 {
      OffsetIsProduct(i - 1, w);
      assert i * w == (i - 1) * w + w;
    }
  }

  /** `s` holds the two digits `digits` at offset `o`, followed by the
      separator when `more` bytes follow. */
  predicate FieldAt(s: string, o: nat, digits: string, separator: string, more: bool)
  {
    o + 2 <= |s| && s[o..o + 2] == digits &&
    (more ==> o + 2 + |separator| <= |s| && s[o + 2..o + 2 + |separator|] == separator)
  }

  /** Byte `i` is rendered, in input order, at offset `i * (2 + |separator|)`,
      and a separator follows every byte but the last. */
  lemma BytesToHexStringAt(bytes: seq<byte>, separator: string, i: nat)
    requires i < |bytes|
    ensures FieldAt(BytesToHexString(bytes, separator), i * (2 + |separator|),
                    ToHex2(bytes[i]), separator, i + 1 < |bytes|)
  {
    FieldAtOffset(bytes, separator, i);
    OffsetIsProduct(i, 2 + |separator|);
  }

  /** The same, with the offset counted field by field. */
  lemma {:induction false} FieldAtOffset(bytes: seq<byte>, separator: string, i: nat)
    requires i < |bytes|
    ensures FieldAt(BytesToHexString(bytes, separator), Offset(i, 2 + |separator|),
                    ToHex2(bytes[i]), separator, i + 1 < |bytes|)
    decreases i
  {
    if i == 0 {
      FirstField(bytes, separator);
    } else {
      var w := 2 + |separator|;
      BytesToHexStringCons(bytes, separator);
      FieldAtOffset(bytes[1..], separator, i - 1);
      assert bytes[1..][i - 1] == bytes[i];
      FieldsOfSuffix(BytesToHexString(bytes, separator), ToHex2(bytes[0]) + separator,
                     BytesToHexString(bytes[1..], separator), Offset(i - 1, w), ToHex2(bytes[i]),
                     separator, i + 1 < |bytes|);
    }
  }

  /** The rendering starts with the first byte's digits, and a separator
      when more bytes follow. */
  lemma FirstField(bytes: seq<byte>, separator: string)
    requires |bytes| >= 1
    ensures FieldAt(BytesToHexString(bytes, separator), 0, ToHex2(bytes[0]), separator, 1 < |bytes|)
  {
    var s := BytesToHexString(bytes, separator);
    if |bytes| == 1 {
      BytesToHexStringOne(bytes[0], separator);
      assert [bytes[0]] == bytes;
    } else {
      BytesToHexStringCons(bytes, separator);
      SlicesOfPrefix(s, ToHex2(bytes[0]), separator, BytesToHexString(bytes[1..], separator));
    }
  }

  /** The first two pieces of a concatenation of three. */
  lemma SlicesOfPrefix(s: string, a: string, b: string, t: string)
    requires s == a + b + t
    ensures s[..|a|] == a && s[|a|..|a| + |b|] == b
  {
  }

  /** A field found at offset `o` in `t` is found at `|head| + o` in
      `head + t`. */
  lemma FieldsOfSuffix(s: string, head: string, t: string, o: nat, digits: string, separator: string,
                       more: bool)
    requires s == head + t && FieldAt(t, o, digits, separator, more)
    ensures FieldAt(s, |head| + o, digits, separator, more)
  {
    SliceOfSuffix(s, head, t, o, o + 2);
    if more {
      SliceOfSuffix(s, head, t, o + 2, o + 2 + |separator|);
    }
  }

  /** A slice of the tail of a concatenation. */
  lemma SliceOfSuffix(s: string, head: string, t: string, lo: nat, hi: nat)
    requires s == head + t && lo <= hi <= |t|
    ensures s[|head| + lo..|head| + hi] == t[lo..hi]
  {
  }

  /** Reads back a rendering: pairs of hex digits separated by `separator`. */
  function ParseHexString(s: string, separator: string): Option<seq<byte>>
  {
    if s == [] then Some([]) else ParsePairs(s, separator)
  }

  function ParsePairs(s: string, separator: string): Option<seq<byte>>
    decreases |s|
  {
    if |s| < 2 || !IsHexDigit(s[0]) || !IsHexDigit(s[1]) then
      None
    else
      var b := 16 * DigitValue(s[0]) + DigitValue(s[1]);
      var rest := s[2..];
      if rest == [] then
        Some([b])
      else if |separator| < |rest| && rest[..|separator|] == separator then
        match ParsePairs(rest[|separator|..], separator)
        case None => None
        case Some(tail) => Some([b] + tail)
      else
        None
  }

  /** Round trip: the bytes are recovered from their rendering, whatever
      the separator. */
  lemma {:induction false} ParseBytesToHexString(bytes: seq<byte>, separator: string)
    ensures ParseHexString(BytesToHexString(bytes, separator), separator) == Some(bytes)
    decreases |bytes|
  {
    var s := BytesToHexString(bytes, separator);
    if |bytes| == 1 {
      assert s == ToHex2(bytes[0]);
      assert [bytes[0]] == bytes;
    } else if |bytes| >= 2 {
      BytesToHexStringCons(bytes, separator);
      var t := BytesToHexString(bytes[1..], separator);
      BytesToHexStringLength(bytes[1..], separator);
      ParseBytesToHexString(bytes[1..], separator);
      var rest := s[2..];
      assert rest == separator + t;
      assert rest[..|separator|] == separator && rest[|separator|..] == t;
      assert [bytes[0]] + bytes[1..] == bytes;
    }
  }

  /** And conversely: a string that parses is the rendering of what it
      parses to. With the round trip, rendering is a bijection between byte
      sequences and the strings the parser accepts. */
  lemma ParsedIsRendering(s: string, separator: string, bytes: seq<byte>)
    requires ParseHexString(s, separator) == Some(bytes)
    ensures s == BytesToHexString(bytes, separator)
  {
    if s != [] {
      ParsedPairsAreRendering(s, separator, bytes);
    }
  }

  lemma {:induction false} ParsedPairsAreRendering(s: string, separator: string, bytes: seq<byte>)
    requires ParsePairs(s, separator) == Some(bytes)
    ensures s == BytesToHexString(bytes, separator)
    decreases |s|
  {
    ParsePairsStep(s, separator);
    var b := PairValue(s);
    if |s| == 2 {
      BytesToHexStringOne(b, separator);
    } else {
      var t := s[2 + |separator|..];
      var tail := ParsePairs(t, separator).value;
      ParsePairsStep(t, separator);
      ParsedPairsAreRendering(t, separator, tail);
      RenderingCons(s, separator, b, tail);
    }
  }

  /** The byte the first two digits of `s` denote, with its rendering. */
  function PairValue(s: string): (b: byte)
    requires |s| >= 2 && IsHexDigit(s[0]) && IsHexDigit(s[1])
    ensures ToHex2(b) == s[..2]
  {
    HexPair(s[0], s[1]);
    16 * DigitValue(s[0]) + DigitValue(s[1])
  }

  /** A string made of a byte's digits, the separator and the rendering of
      more bytes is the rendering of them all. */
  lemma RenderingCons(s: string, separator: string, b: byte, tail: seq<byte>)
    requires |tail| >= 1 && 2 + |separator| <= |s|
    requires s[..2] == ToHex2(b) && s[2..2 + |separator|] == separator
    requires s[2 + |separator|..] == BytesToHexString(tail, separator)
    ensures s == BytesToHexString([b] + tail, separator)
  {
    BytesToHexStringCons([b] + tail, separator);
    assert ([b] + tail)[1..] == tail;
    assert s == s[..2] + s[2..2 + |separator|] + s[2 + |separator|..];
  }

  /** A single byte renders as its two digits alone. */
  lemma BytesToHexStringOne(b: byte, separator: string)
    ensures BytesToHexString([b], separator) == ToHex2(b)
  {
    assert Hexes([b]) == [ToHex2(b)];
  }

  /** One step of the parser: a pair of digits, then either the end or a
      separator and the rest. */
  lemma ParsePairsStep(s: string, separator: string)
    requires ParsePairs(s, separator).Some?
    ensures |s| >= 2 && IsHexDigit(s[0]) && IsHexDigit(s[1]) && |ParsePairs(s, separator).value| >= 1
    ensures |s| == 2 ==> ParsePairs(s, separator).value == [PairValue(s)]
    ensures |s| > 2 ==>
              2 + |separator| < |s| && s[2..2 + |separator|] == separator &&
              ParsePairs(s[2 + |separator|..], separator).Some? &&
              ParsePairs(s, separator).value == [PairValue(s)] + ParsePairs(s[2 + |separator|..], separator).value
  {
    var rest := s[2..];
    if |s| > 2 {
      assert rest[..|separator|] == s[2..2 + |separator|] && rest[|separator|..] == s[2 + |separator|..];
    }
  }

  /** Two hex digits are the rendering of the byte they denote. */
  lemma HexPair(hi: char, lo: char)
    requires IsHexDigit(hi) && IsHexDigit(lo)
    ensures 16 * DigitValue(hi) + DigitValue(lo) < 0x100
    ensures ToHex2(16 * DigitValue(hi) + DigitValue(lo)) == [hi, lo]
  {
  }

  // ---------------------------------------------------------------------
  // CursorSpin
  // ---------------------------------------------------------------------

  /** The frames of the progress indicator, indexed by `counter`. */
  const Sequence: seq<string> := [".    ", "..   ", "...  ", ".... ", "....."]

  /** The two static fields `CursorSpin` updates. */
  datatype SpinState = SpinState(counter: int, skip: int)

  /** One call of `CursorSpin(delay)` on the state. */
  function SpinStep(s: SpinState, delay: int): SpinState
  {
    var skip := s.skip + 1;
    var counter := if delay == skip then s.counter + 1 else s.counter;
    var skip' := if delay == skip then 0 else skip;
    SpinState(if counter >= |Sequence| then 0 else counter, skip')
  }

  /** `skip` advances on every call and is reset exactly when it reaches
      `delay`; only then does `counter` advance, modulo the five frames.
      A counter that indexes `Sequence` keeps doing so. */
  lemma SpinStepSpec(s: SpinState, delay: int)
    requires 0 <= s.counter < |Sequence|
    ensures var r := SpinStep(s, delay);
            0 <= r.counter < |Sequence| &&
            (s.skip + 1 == delay ==> r.skip == 0 && r.counter == (s.counter + 1) % |Sequence|) &&
            (s.skip + 1 != delay ==> r.skip == s.skip + 1 && r.counter == s.counter)
  {
  }

  /** The state after `n` calls with the same `delay`, from the initial one. */
  function Spins(n: nat, delay: int): SpinState
  {
    if n == 0 then SpinState(0, 0) else SpinStep(Spins(n - 1, delay), delay)
  }

  /** With a fixed `delay >= 1`, after `q` full periods of `delay` calls and
      `r < delay` calls more, `counter` has advanced `q` times modulo the
      five frames and `skip` is `r`. */
  lemma {:induction false} SpinsPeriod(q: nat, r: nat, delay: int)
    requires delay >= 1 && r < delay
    ensures Spins(q * delay + r, delay) == SpinState(q % |Sequence|, r)
    decreases q, r
  {
    if r > 0 {
      SpinsPeriod(q, r - 1, delay);
    } else if q > 0 {
      assert q * delay == (q - 1) * delay + (delay - 1) + 1;
      SpinsPeriod(q - 1, delay - 1, delay);
    }
  }

  /** Hence, between calls, `0 <= skip < delay`, and `counter` is the number
      of completed periods modulo 5. */
  lemma SpinsValue(n: nat, delay: int)
    requires delay >= 1
    ensures Spins(n, delay) == SpinState((n / delay) % |Sequence|, n % delay)
    ensures 0 <= Spins(n, delay).skip < delay
  {
    assert n == (n / delay) * delay + n % delay;
    SpinsPeriod(n / delay, n % delay, delay);
  }

  /** `SerialTool`'s static fields, as one object. */
  class Spinner {
    var counter: int
    var skip: int

    ghost predicate Valid()
      reads this
    {
      0 <= counter < |Sequence|
    }

    function State(): SpinState
      reads this
    {
      SpinState(counter, skip)
    }

    /** The static initialisers: both fields start at 0. */
    constructor ()
      ensures Valid() && State() == Spins(0, 0)
    {
      counter, skip := 0, 0;
    }

    /** `CursorSpin(delay)`: update `skip` and `counter`; return the frame
        the indicator shows, `sequence[counter]`, whose index is always in
        range. */
    method CursorSpin(delay: int) returns (shown: string)
      requires Valid()
      modifies this
      ensures Valid()
      ensures State() == SpinStep(old(State()), delay)
      ensures shown == Sequence[counter]
    {
      skip := skip + 1;

      if delay == skip {
        counter := counter + 1;
        skip := 0;
      }

      if counter >= |Sequence| {
        counter := 0;
      }

      shown := Sequence[counter];
    }
  }
}
