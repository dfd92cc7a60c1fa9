/** The .NET `byte` type and the two byte-level operations the rest of the
    model needs: the unchecked `(byte)` cast and flipping one bit. */
module Bytes {

  /** An unsigned eight-bit value, as the .NET `byte`. */
  type byte = x: int | 0 <= x < 0x100

  /** The unchecked C# cast `(byte)x` of an `int`: it keeps the low eight bits.
      On two's-complement integers that is the Euclidean remainder modulo 256,
      so the cast of a negative value is the byte congruent to it. */
  function ToByte(x: int): (b: byte)
    ensures (x - b) % 0x100 == 0
  {
    x % 0x100
  }

  /** The bit pattern of a byte. */
  function AsBv8(b: byte): bv8
  {
    b as bv8
  }

  /** The one-bit mask selecting bit `k` (0 = least significant). */
  function Mask(k: nat): bv8
    requires k < 8
  {
    (1 as bv8) << k
  }

  /** The byte `b` with bit `k` inverted. */
  function FlipBit(b: byte, k: nat): byte
    requires k < 8
  {
    (AsBv8(b) ^ Mask(k)) as int
  }

  /** Flipping a bit always yields a different byte. */
  lemma FlipBitChanges(b: byte, k: nat)
    requires k < 8
    ensures FlipBit(b, k) != b
  {
    assert Mask(k) != 0;
    XorChanges(AsBv8(b), Mask(k));
  }

  lemma XorChanges(x: bv8, m: bv8)
    requires m != 0
    ensures x ^ m != x
  {
  }
}
