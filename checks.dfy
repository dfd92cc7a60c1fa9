/** The two integrity checks of the OSDP class: `CheckCKSUM`, the 8-bit
    two's-complement checksum that decides `ValidMessage`, and `CheckCRC`,
    the CRC-16 (polynomial 0x1021, initial value 0xFFFF, most significant bit
    first, no final XOR) that this revision defines but never calls.
    Each is a method with the loops of `CheckCKSUM` or `CheckCRC`, proved
    equal to a function. */
module Checks {
  import opened Bytes

  // ---------------------------------------------------------------------
  // Checksum
  // ---------------------------------------------------------------------

  /** Arithmetic sum of the bytes. Its bound shows that `calcSum` never
      wraps in the constructor's call: a message has at most 1440 bytes, so
      the sum stays below 367,200, far inside a 32-bit `int`. */
  function Sum(s: seq<byte>): (r: nat)
    ensures r <= 0xFF * |s|
  {
    if s == [] then 0 else Sum(s[..|s| - 1]) + s[|s| - 1]
  }

  /** The bytes the checksum covers: all but the last one. `CheckCKSUM`
      loops to `bytes.Length - 1`, which is -1 for an empty array. */
  function Covered(bytes: seq<byte>): seq<byte>
  {
    if bytes == [] then [] else bytes[..|bytes| - 1]
  }

  /** The value `CheckCKSUM` returns: the two's-complement negation
      (`~sum + 1`) of the sum of the covered bytes, cast to a byte. */
  function Cksum(bytes: seq<byte>): (r: byte)
    ensures (r + Sum(Covered(bytes))) % 0x100 == 0
  {
    ToByte(-(Sum(Covered(bytes)) as int))
  }

  /** `CheckCKSUM`: the loop accumulating `calcSum`, then `~`, `++` and the
      byte cast. The accumulator is unbounded here; a 32-bit wrap-around
      would not change the result, because 2^32 is a multiple of 256. */
  method CheckCksum(bytes: array<byte>) returns (r: byte)
    ensures r == Cksum(bytes[..])
  {
    var calcSum: int := 0;
    var bytesLength := bytes.Length - 1;
    var i := 0;
    while i < bytesLength
      invariant i == 0 || i <= bytesLength
      invariant calcSum == Sum(bytes[..i])
    {
      assert bytes[..i + 1][..i] == bytes[..i];
      calcSum := calcSum + bytes[i];
      i := i + 1;
    }
    assert Covered(bytes[..]) == bytes[..i];
    calcSum := -calcSum - 1;  // ~calcSum
    calcSum := calcSum + 1;
    r := ToByte(calcSum);
  }

  /** A message is valid when its last byte is the checksum of the others. */
  predicate IsValidMessage(m: seq<byte>)
  {
    |m| > 0 && m[|m| - 1] == Cksum(m)
  }

  /** The checksum never looks at the last byte. */
  lemma CksumIgnoresLast(prefix: seq<byte>, a: byte, b: byte)
    ensures Cksum(prefix + [a]) == Cksum(prefix + [b])
  {
    assert Covered(prefix + [a]) == prefix == Covered(prefix + [b]);
  }

  /** The checksum is a function of the covered sum modulo 256: two byte
      strings whose sums agree modulo 256 have the same checksum, and only
      those. */
  lemma CksumDeterminedBySum(m1: seq<byte>, m2: seq<byte>)
    ensures Cksum(m1) == Cksum(m2) <==> Sum(Covered(m1)) % 0x100 == Sum(Covered(m2)) % 0x100
  {
    NegatedByte(Sum(Covered(m1)));
    NegatedByte(Sum(Covered(m2)));
  }

  /** The byte of `-s`: zero when 256 divides `s`, else 256 less the
      remainder; distinct remainders give distinct bytes. */
  lemma NegatedByte(s: int)
    ensures ToByte(-s) == if s % 0x100 == 0 then 0 else 0x100 - s % 0x100
  {
    var q, r := s / 0x100, s % 0x100;
    assert s == 0x100 * q + r;
    if r == 0 {
      assert -s == 0x100 * -q;
    } else {
      assert -s == 0x100 * (-q - 1) + (0x100 - r);
    }
  }

  lemma SumSnoc(s: seq<byte>, b: byte)
    ensures Sum(s + [b]) == Sum(s) + b
  {
    assert (s + [b])[..|s|] == s;
  }

  /** Replacing one byte changes the sum by exactly the difference. */
  lemma {:induction false} SumUpdate(s: seq<byte>, i: nat, v: byte)
    requires i < |s|
    ensures Sum(s[i := v]) == Sum(s) - s[i] + v
  {
    var n := |s| - 1;
    assert s[i := v][..n] == if i == n then s[..n] else s[..n][i := v];
    if i < n {
      SumUpdate(s[..n], i, v);
    }
  }

  /** Changing any one byte of a valid message, trailer included, makes it
      invalid: the checksum detects every single-byte error. */
  lemma {:induction false} SingleByteChangeDetected(m: seq<byte>, i: nat, v: byte)
    requires IsValidMessage(m)
    requires i < |m| && v != m[i]
    ensures !IsValidMessage(m[i := v])
  {
    var n := |m| - 1;
    var m' := m[i := v];
    if i < n {
      assert Covered(m') == Covered(m)[i := v];
      SumUpdate(Covered(m), i, v);
      ResidueMoves(Sum(Covered(m)), v - m[i]);
      CksumDeterminedBySum(m, m');
      assert m'[n] == m[n];
    } else {
      assert Covered(m') == Covered(m);
    }
  }

  /** Adding a nonzero amount smaller than 256 in magnitude changes the
      residue modulo 256. */
  lemma ResidueMoves(s: int, d: int)
    requires -0x100 < d < 0x100 && d != 0
    ensures (s + d) % 0x100 != s % 0x100
  {
    var q, r := s / 0x100, s % 0x100;
    var q', r' := (s + d) / 0x100, (s + d) % 0x100;
    assert s == 0x100 * q + r && s + d == 0x100 * q' + r';
    assert r' - r == d - 0x100 * (q' - q);
  }

  /** Hence flipping any single bit of a valid message makes it invalid. */
  lemma SingleBitFlipDetected(m: seq<byte>, i: nat, k: nat)
    requires IsValidMessage(m)
    requires i < |m| && k < 8
    ensures !IsValidMessage(m[i := FlipBit(m[i], k)])
  {
    FlipBitChanges(m[i], k);
    SingleByteChangeDetected(m, i, FlipBit(m[i], k));
  }

  // ---------------------------------------------------------------------
  // CRC-16
  // ---------------------------------------------------------------------

  const Polynomial: bv16 := 0x1021
  const CrcInit: bv16 := 0xFFFF

  /** Bit `j` of `b`, counting from the most significant (j = 0) down. */
  function BitAt(b: bv8, j: nat): bool
    requires j < 8
  {
    (b >> (7 - j)) & 1 == 1
  }

  /** One step of the register: shift left by one (the 16-bit truncation
      of C#'s `crcValue <<= 1` is the shift of a `bv16`), and add the
      polynomial when the bit shifted out differs from the input bit. */
  function CrcBit(crc: bv16, bit: bool): bv16
  {
    var c15 := (crc >> 15) & 1 == 1;
    var shifted := crc << 1;
    if c15 != bit then shifted ^ Polynomial else shifted
  }

  /** The register after the first `j` bits of `b`. */
  function CrcBits(crc: bv16, b: bv8, j: nat): bv16
    requires j <= 8
  {
    if j == 0 then crc else CrcBit(CrcBits(crc, b, j - 1), BitAt(b, j - 1))
  }

  /** The register after all of `s`, starting from `crc`. */
  function CrcUpdate(crc: bv16, s: seq<byte>): bv16
  {
    if s == [] then crc else CrcBits(CrcUpdate(crc, s[..|s| - 1]), AsBv8(s[|s| - 1]), 8)
  }

  /** The value `CheckCRC` returns. */
  function Crc(s: seq<byte>): bv16
  {
    CrcUpdate(CrcInit, s)
  }

  /** `CheckCRC`: the nested byte and bit loops over `crcValue`. */
  method CheckCrc(data: array<byte>) returns (r: bv16)
    ensures r == Crc(data[..])
  {
    var crcValue := CrcInit;
    var i := 0;
    while i < data.Length
      invariant i <= data.Length
      invariant crcValue == CrcUpdate(CrcInit, data[..i])
    {
      var b := AsBv8(data[i]);
      ghost var before := crcValue;
      var j := 0;
      while j < 8
        invariant j <= 8
        invariant crcValue == CrcBits(before, b, j)
      {
        crcValue := CrcBit(crcValue, BitAt(b, j));
        j := j + 1;
      }
      assert data[..i + 1][..i] == data[..i];
      i := i + 1;
    }
    assert data[..i] == data[..];
    crcValue := crcValue & 0xFFFF;
    r := crcValue;
  }

  /** The register is updated byte by byte: the CRC of `a + b` is the CRC
      of `a` carried on over `b`. */
  lemma {:induction false} CrcUpdateAppend(crc: bv16, a: seq<byte>, b: seq<byte>)
    ensures CrcUpdate(crc, a + b) == CrcUpdate(CrcUpdate(crc, a), b)
    decreases |b|
  {
    if b == [] {
      assert a + b == a;
    } else {
      var n := |b| - 1;
      assert (a + b)[..|a + b| - 1] == a + b[..n];
      CrcUpdateAppend(crc, a, b[..n]);
    }
  }

  lemma CrcAppend(a: seq<byte>, b: seq<byte>)
    ensures Crc(a + b) == CrcUpdate(Crc(a), b)
  {
    CrcUpdateAppend(CrcInit, a, b);
  }

  /** Nothing processed leaves the initial value. */
  lemma CrcEmpty()
    ensures Crc([]) == 0xFFFF
  {
  }

  /** One more byte is one more pass of the bit loop. */
  lemma CrcUpdateSnoc(crc: bv16, s: seq<byte>, b: byte)
    ensures CrcUpdate(crc, s + [b]) == CrcBits(CrcUpdate(crc, s), AsBv8(b), 8)
  {
    assert (s + [b])[..|s|] == s;
  }

  /** The bit loop on each byte of "123456789" in turn, from the register
      value the bytes before it leave. */
  lemma CheckValueBits1()
    ensures CrcBits(0xFFFF, AsBv8(0x31), 8) == 0xC782
  {
  }

  lemma CheckValueBits2()
    ensures CrcBits(0xC782, AsBv8(0x32), 8) == 0x3DBA
  {
  }

  lemma CheckValueBits3()
    ensures CrcBits(0x3DBA, AsBv8(0x33), 8) == 0x5BCE
  {
  }

  lemma CheckValueBits4()
    ensures CrcBits(0x5BCE, AsBv8(0x34), 8) == 0x5349
  {
  }

  lemma CheckValueBits5()
    ensures CrcBits(0x5349, AsBv8(0x35), 8) == 0x4560
  {
  }

  lemma CheckValueBits6()
    ensures CrcBits(0x4560, AsBv8(0x36), 8) == 0x2EF4
  {
  }

  lemma CheckValueBits7()
    ensures CrcBits(0x2EF4, AsBv8(0x37), 8) == 0x7718
  {
  }

  lemma CheckValueBits8()
    ensures CrcBits(0x7718, AsBv8(0x38), 8) == 0xA12B
  {
  }

  lemma CheckValueBits9()
    ensures CrcBits(0xA12B, AsBv8(0x39), 8) == 0x29B1
  {
  }

  /** Hence the register after each byte of "123456789" in turn. */
  lemma CheckValueByte1(s: seq<byte>)
    requires Crc(s) == 0xFFFF
    ensures Crc(s + [0x31]) == 0xC782
  {
    CrcUpdateSnoc(CrcInit, s, 0x31);
    CheckValueBits1();
  }

  lemma CheckValueByte2(s: seq<byte>)
    requires Crc(s) == 0xC782
    ensures Crc(s + [0x32]) == 0x3DBA
  {
    CrcUpdateSnoc(CrcInit, s, 0x32);
    CheckValueBits2();
  }

  lemma CheckValueByte3(s: seq<byte>)
    requires Crc(s) == 0x3DBA
    ensures Crc(s + [0x33]) == 0x5BCE
  {
    CrcUpdateSnoc(CrcInit, s, 0x33);
    CheckValueBits3();
  }

  lemma CheckValueByte4(s: seq<byte>)
    requires Crc(s) == 0x5BCE
    ensures Crc(s + [0x34]) == 0x5349
  {
    CrcUpdateSnoc(CrcInit, s, 0x34);
    CheckValueBits4();
  }

  lemma CheckValueByte5(s: seq<byte>)
    requires Crc(s) == 0x5349
    ensures Crc(s + [0x35]) == 0x4560
  {
    CrcUpdateSnoc(CrcInit, s, 0x35);
    CheckValueBits5();
  }

  lemma CheckValueByte6(s: seq<byte>)
    requires Crc(s) == 0x4560
    ensures Crc(s + [0x36]) == 0x2EF4
  {
    CrcUpdateSnoc(CrcInit, s, 0x36);
    CheckValueBits6();
  }

  lemma CheckValueByte7(s: seq<byte>)
    requires Crc(s) == 0x2EF4
    ensures Crc(s + [0x37]) == 0x7718
  {
    CrcUpdateSnoc(CrcInit, s, 0x37);
    CheckValueBits7();
  }

  lemma CheckValueByte8(s: seq<byte>)
    requires Crc(s) == 0x7718
    ensures Crc(s + [0x38]) == 0xA12B
  {
    CrcUpdateSnoc(CrcInit, s, 0x38);
    CheckValueBits8();
  }

  lemma CheckValueByte9(s: seq<byte>)
    requires Crc(s) == 0xA12B
    ensures Crc(s + [0x39]) == 0x29B1
  {
    CrcUpdateSnoc(CrcInit, s, 0x39);
    CheckValueBits9();
  }

  /** The standard check value of this CRC-16 parameterisation: the ASCII
      string "123456789" yields 0x29B1. */
  lemma CrcCheckValue()
    ensures Crc([0x31, 0x32, 0x33, 0x34, 0x35, 0x36, 0x37, 0x38, 0x39]) == 0x29B1
  {
    var s: seq<byte> := [];
    CheckValueByte1(s);
    s := s + [0x31];
    CheckValueByte2(s);
    s := s + [0x32];
    CheckValueByte3(s);
    s := s + [0x33];
    CheckValueByte4(s);
    s := s + [0x34];
    CheckValueByte5(s);
    s := s + [0x35];
    CheckValueByte6(s);
    s := s + [0x36];
    CheckValueByte7(s);
    s := s + [0x37];
    CheckValueByte8(s);
    s := s + [0x38];
    CheckValueByte9(s);
    s := s + [0x39];
    assert s == [0x31, 0x32, 0x33, 0x34, 0x35, 0x36, 0x37, 0x38, 0x39];
  }
}
