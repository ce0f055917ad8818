/** Java's fixed-width integers and the few bit operations the decimal codec
    applies to them, written as exact arithmetic on mathematical integers.

    A Java `byte` is a signed octet and a Java `int` a signed 32-bit two's
    complement value; both are kept here as subset types of `int`, so every
    value the model handles is the value Java would print for that variable.
 */
module JavaInt {

  const TWO31: int := 0x8000_0000
  const TWO32: int := 0x1_0000_0000

  /** The values of a Java `int`. */
  type Int32 = x: int | -0x8000_0000 <= x < 0x8000_0000

  /** The values of a Java `byte`. */
  type JByte = x: int | -128 <= x < 128

  /** The result of an `int` operation whose exact value is `n`: Java keeps the
      low 32 bits and reads them back as a signed value. */
  function Wrap32(n: int): (r: Int32)
    ensures (r - n) % TWO32 == 0
    ensures -TWO31 <= n < TWO31 ==> r == n
  {
    var m := n % TWO32;
    if m >= TWO31 then m - TWO32 else m
  }

  /** `a & 0xff` on a byte promoted to `int`: the unsigned octet with the same
      bit pattern as `a`. */
  function UByte(a: JByte): (r: int)
    ensures 0 <= r < 256
    ensures (r - a) % 256 == 0
    ensures r >= 128 <==> a < 0
  {
    if a < 0 then a + 256 else a
  }

  /** The byte whose bit pattern is the unsigned octet `u` (a narrowing
      `(byte)` cast). */
  function ToJByte(u: int): (r: JByte)
    requires 0 <= u < 256
    ensures UByte(r) == u
  {
    if u >= 128 then u - 256 else u
  }

  /** `(from[0] & 0x80) != 0`: bit 7 of a byte is its two's complement sign. */
  predicate HighBitSet(a: JByte) {
    a < 0
  }

  /** `a ^= 0x80` on a byte: bit 7 toggled, the other seven bits kept. */
  function FlipHighBit(a: JByte): (r: JByte)
    ensures UByte(r) == (UByte(a) + 128) % 256
    ensures HighBitSet(r) <==> !HighBitSet(a)
  {
    if a < 0 then a + 128 else a - 128
  }

  /** The two masks the decoder uses: 0 (no bit set) and -1 (all 32 bits set). */
  predicate IsMask(mask: int) {
    mask == 0 || mask == -1
  }

  /** `x ^ mask` on `int`. XOR with all-ones is the bitwise complement, which
      in two's complement is `-x - 1`. */
  function XorMask(x: Int32, mask: Int32): (r: Int32)
    requires IsMask(mask)
    ensures mask == 0 ==> r == x
    ensures mask == -1 ==> r + x == -1
  {
    if mask == 0 then x else -1 - (x as int)
  }

  /** Java's `a / 9` on `int`: the quotient is truncated toward zero, where
      Dafny's own `/` is Euclidean. */
  function JavaDiv9(a: Int32): (r: Int32)
    ensures a >= 0 ==> 0 <= 9 * r <= a < 9 * r + 9
    ensures a < 0 ==> 9 * r - 9 < a <= 9 * r <= 0
  {
    if a >= 0 then a / 9 else -((0 - a as int) / 9)
  }
}
