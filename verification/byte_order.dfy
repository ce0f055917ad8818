/** The big-endian ("high byte first") integer readers of the decimal codec,
    the MySQL `mi_sintNkorr` macros as the Java port writes them, and the
    matching writers used by the reference packing.

    The reference meaning of a byte window is given by two independent
    definitions: `BigEndian` (the bytes read as one unsigned number) and
    `TwosComplement` (the same bits read as a signed number of that width).
    Every reader is characterised against one of them.
 */
module ByteOrder {
  import opened JavaInt

  /** Which behaviour a reader or a range check follows: `AsWritten` is the
      Java port; `Corrected` is the behaviour the port evidently intends, see
      README "## Findings". For the readers and the range checks that is what
      the C macros and the `uint32` casts do; for the trailing group it is the
      exact product, which the C itself computes in wrapping 32-bit
      arithmetic. */
  datatype Variant = AsWritten | Corrected

  function Pow256(w: nat): (r: nat)
    ensures r >= 1
  {
    if w == 0 then 1 else 256 * Pow256(w - 1)
  }

  /** The bytes of `a`, most significant first, read as one unsigned number. */
  function BigEndian(a: seq<JByte>): (r: nat)
    ensures r < Pow256(|a|)
  {
    if |a| == 0 then 0
    else
      var high := BigEndian(a[..|a| - 1]);
      assert high * 256 <= (Pow256(|a| - 1) - 1) * 256;
      high * 256 + UByte(a[|a| - 1])
  }

  /** The bytes of `a`, most significant first, read as a signed two's
      complement number of `8 * |a|` bits. */
  function TwosComplement(a: seq<JByte>): (r: int)
    requires |a| >= 1
  {
    BigEndian(a) - (if HighBitSet(a[0]) then Pow256(|a|) else 0)
  }

  /** The top bit of the first byte is the top bit of the whole number. */
  lemma {:induction false} HighBitIsTopBit(a: seq<JByte>)
    requires |a| >= 1
    ensures HighBitSet(a[0]) <==> BigEndian(a) >= Pow256(|a|) / 2
    decreases |a|
  {
    if |a| > 1 {
      var p := a[..|a| - 1];
      assert p[0] == a[0];
      HighBitIsTopBit(p);
      var q := Pow256(|p|) / 2;
      assert Pow256(|a|) / 2 == q * 256;
      assert BigEndian(a) == BigEndian(p) * 256 + UByte(a[|a| - 1]);
      if BigEndian(p) >= q {
        assert BigEndian(p) * 256 >= q * 256;
      } else {
        assert BigEndian(p) * 256 <= (q - 1) * 256;
      }
    }
  }

  /** A two's complement reading lies in the signed range of its width and
      is negative exactly when the high bit of the first byte is set. */
  lemma TwosComplementRange(a: seq<JByte>)
    requires |a| >= 1
    ensures -(Pow256(|a|) / 2) <= TwosComplement(a) < Pow256(|a|) / 2
    ensures TwosComplement(a) < 0 <==> HighBitSet(a[0])
  {
    HighBitIsTopBit(a);
  }

  /** The unsigned readings of the first one to four bytes, spelled out. */
  lemma BigEndianPrefixes(a: seq<JByte>, n: nat)
    requires 1 <= n <= 4 && |a| >= n
    ensures BigEndian(a[..1]) == UByte(a[0])
    ensures n >= 2 ==> BigEndian(a[..2]) == UByte(a[0]) * 0x100 + UByte(a[1])
    ensures n >= 3 ==> BigEndian(a[..3]) == UByte(a[0]) * 0x1_0000 + UByte(a[1]) * 0x100 + UByte(a[2])
    ensures n >= 4 ==>
      BigEndian(a[..4]) == UByte(a[0]) * 0x100_0000 + UByte(a[1]) * 0x1_0000 + UByte(a[2]) * 0x100 + UByte(a[3])
    ensures Pow256(1) == 0x100 && Pow256(2) == 0x1_0000
    ensures Pow256(3) == 0x100_0000 && Pow256(4) == 0x1_0000_0000
  {
    assert a[..1][..0] == [];
    if n >= 2 { assert a[..2][..1] == a[..1]; }
    if n >= 3 { assert a[..3][..2] == a[..2]; }
    if n >= 4 { assert a[..4][..3] == a[..3]; }
  }

  /** `mi_sint1korr` as ported: the first byte as an unsigned octet. */
  function Sint1(a: seq<JByte>): (r: Int32)
    requires |a| >= 1
    ensures r == BigEndian(a[..1])
    ensures 0 <= r < 0x100
  {
    UByte(a[0])
  }

  /** `mi_sint2korr` as ported: two bytes combined as an unsigned 16-bit
      value (`ubyte(a[1]) + (ubyte(a[0]) << 8)`). */
  function Sint2(a: seq<JByte>): (r: Int32)
    requires |a| >= 2
    ensures r == BigEndian(a[..2])
    ensures 0 <= r < 0x1_0000
  {
    BigEndianPrefixes(a, 2);
    UByte(a[1]) + UByte(a[0]) * 0x100
  }

  /** `mi_sint3korr`: three bytes combined, and when bit 7 of the first byte
      is set the unused high byte is filled with ones. The fields are
      disjoint, so `|` adds them; `255 << 24` is the `int` value `-2^24`. */
  function Sint3(a: seq<JByte>): (r: Int32)
    requires |a| >= 3
    ensures r == TwosComplement(a[..3])
    ensures HighBitSet(a[0]) ==> -0x100_0000 <= r < 0
    ensures !HighBitSet(a[0]) ==> 0 <= r < 0x100_0000
  {
    BigEndianPrefixes(a, 3);
    var low := UByte(a[0]) * 0x1_0000 + UByte(a[1]) * 0x100 + UByte(a[2]);
    if a[0] < 0 then -0x100_0000 + low else low
  }

  /** `mi_sint4korr`: four bytes combined into the raw 32-bit pattern; the
      `int` additions and `ubyte(a[0]) << 24` wrap, which `Wrap32` makes
      explicit. */
  function Sint4(a: seq<JByte>): (r: Int32)
    requires |a| >= 4
    ensures r == TwosComplement(a[..4])
    ensures r < 0 <==> HighBitSet(a[0])
  {
    BigEndianPrefixes(a, 4);
    Wrap32(UByte(a[3]) + UByte(a[2]) * 0x100 + UByte(a[1]) * 0x1_0000 + UByte(a[0]) * 0x100_0000)
  }

  /** The C macro `mi_sint1korr`: the first byte as a signed octet. */
  function Sint1Signed(a: seq<JByte>): (r: Int32)
    requires |a| >= 1
    ensures r == TwosComplement(a[..1])
  {
    a[0]
  }

  /** The C macro `mi_sint2korr`: the high byte taken signed, shifted, plus
      the low byte taken unsigned. */
  function Sint2Signed(a: seq<JByte>): (r: Int32)
    requires |a| >= 2
    ensures r == TwosComplement(a[..2])
  {
    BigEndianPrefixes(a, 2);
    a[0] * 0x100 + UByte(a[1])
  }

  /** The reader the decoder picks for a group of `w` bytes
      (`switch (i) { case 1: … case 4: … }`). Only the 3- and 4-byte readers
      produce the two's complement reading in the Java port; the 1- and
      2-byte ones produce the unsigned reading. */
  function ReadInt(v: Variant, a: seq<JByte>, w: int): (r: Int32)
    requires 1 <= w <= 4 && |a| >= w
    ensures (v == Corrected || w >= 3) ==> r == TwosComplement(a[..w])
    ensures (v == AsWritten && w <= 2) ==> r == BigEndian(a[..w])
  {
    match w
    case 1 => if v == AsWritten then Sint1(a) else Sint1Signed(a)
    case 2 => if v == AsWritten then Sint2(a) else Sint2Signed(a)
    case 3 => Sint3(a)
    case 4 => Sint4(a)
  }

  lemma DivBound(u: nat, p: nat)
    requires u < 256 * p
    ensures u / 256 < p
    ensures u == (u / 256) * 256 + u % 256
  {
  }

  /** `u` as `w` bytes, most significant first (the `mi_intNstore` macros). */
  function StoreUnsigned(u: nat, w: nat): (r: seq<JByte>)
    requires u < Pow256(w)
    ensures |r| == w
  {
    if w == 0 then []
    else
      DivBound(u, Pow256(w - 1));
      StoreUnsigned(u / 256, w - 1) + [ToJByte(u % 256)]
  }

  /** Reading the stored bytes back gives the stored number. */
  lemma {:induction false} StoreUnsignedValue(u: nat, w: nat)
    requires u < Pow256(w)
    ensures BigEndian(StoreUnsigned(u, w)) == u
  {
    if w > 0 {
      DivBound(u, Pow256(w - 1));
      var q := u / 256;
      StoreUnsignedValue(q, w - 1);
      var high := StoreUnsigned(q, w - 1);
      var r := StoreUnsigned(u, w);
      assert r == high + [ToJByte(u % 256)];
      assert r[..w - 1] == high;
      assert BigEndian(r) == BigEndian(high) * 256 + u % 256;
    }
  }

  /** `n` as a `w`-byte two's complement image. */
  function Store(n: int, w: nat): (r: seq<JByte>)
    requires 1 <= w
    requires -(Pow256(w) / 2) <= n < Pow256(w) / 2
    ensures |r| == w
    ensures TwosComplement(r) == n
    ensures HighBitSet(r[0]) <==> n < 0
  {
    var u := if n < 0 then n + Pow256(w) else n;
    var r := StoreUnsigned(u, w);
    StoreUnsignedValue(u, w);
    HighBitIsTopBit(r);
    r
  }

  /** Reading back what was stored: the readers invert `Store` exactly when
      they produce the two's complement reading. */
  lemma ReadStore(v: Variant, n: int, w: int)
    requires 1 <= w <= 4
    requires -(Pow256(w) / 2) <= n < Pow256(w) / 2
    requires v == Corrected || w >= 3
    ensures ReadInt(v, Store(n, w), w) == n
  {
    var s := Store(n, w);
    assert s[..w] == s;
  }
}
