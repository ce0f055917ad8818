/** Three inputs that `binToDecimal` as written misdecodes, each shown next
    to the corrected decoder on the same bytes. In the first two the Java
    departs from the C it ports (MySQL's `bin2decimal`): its short readers do
    not sign-extend and its range checks are signed. The third, the wrapping
    trailing product, is inherited from the C, which computes the same 32-bit
    product.

    Each finding is stated for one small column (`DECIMAL(1,0)`,
    `DECIMAL(18,0)`, `DECIMAL(1,1)`) and every byte string that starts with
    the bytes shown. The reading and assembling steps are proved for every
    plan of the small column's shape; a witness lemma shows the small
    column has that shape.
 */
module Findings {
  import opened JavaInt
  import opened ByteOrder
  import opened Layout
  import opened DecimalCodec
  import opened Packing

  /** The group counts and read offset of a plan, its status aside. */
  predicate Shape(pl: Plan, skip: nat, lead: nat, intFull: nat, fracFull: nat, trail: nat) {
    && pl.skip == skip && pl.lead == lead
    && pl.intFull == intFull && pl.fracFull == fracFull && pl.trail == trail
  }

  // Finding 1: the 1- and 2-byte readers do not sign-extend.

  /** `-1` in `DECIMAL(1,0)`, a column with a single one-digit integer
      group, packs as the byte 126 (0x7E): the group 1, complemented to the byte 0xFE, with the
      sign flag of a negative value cleared. */
  lemma MinusOnePacks(precision: Int32, scale: Int32)
    requires precision == 1 && scale == 0
    ensures ExactColumn(precision, scale) && ValidGroups(PlanOf(precision, scale), [1])
    ensures Encode(precision, scale, true, [1]) == [126]
  {
    Decimal10Witness();
    MinusOneShaped(precision, scale);
  }

  /** The packing of -1, for every exact column of the one-digit shape. */
  lemma MinusOneShaped(precision: Int32, scale: Int32)
    requires ExactColumn(precision, scale) && Shape(PlanOf(precision, scale), 0, 1, 0, 0, 0)
    ensures ValidGroups(PlanOf(precision, scale), [1])
    ensures Encode(precision, scale, true, [1]) == [126]
  {
    MinusOneBody(PlanOf(precision, scale));
    assert FlipHighBit(-2) == 126;
  }

  /** The group 1 of a negative value is stored as the byte 0xFE. */
  lemma MinusOneBody(pl: Plan)
    requires Shape(pl, 0, 1, 0, 0, 0)
    ensures ValidGroups(pl, [1])
    ensures Body(pl, true, [1]) == [-2]
  {
    assert SlotAt(pl, 0) == LeadInt(1);
    assert Pow10(1) == 10;
    assert ValidGroups(pl, [1]);
    assert StoreUnsigned(254, 1) == StoreUnsigned(0, 0) + [ToJByte(254)];
    assert GroupImage(pl, true, [1], 0) == [-2];
    assert Images(pl, true, [1]) == [[-2]];
    assert Concat([[-2]], 1) == [-2];
  }

  /** The bytes 126... in `DECIMAL(1,0)` decode, as written, to the group
      -255: the byte 0xFE is unmasked as the unsigned 254 and not as -2.
      Corrected, they decode to the group 1 that was packed. */
  lemma UnsignedShortReadFinding(from: seq<JByte>, precision: Int32, scale: Int32)
    requires precision == 1 && scale == 0
    requires Admissible(from, precision, scale) && from[0] == 126
    ensures Decode(AsWritten, from, precision, scale).Success?
    ensures Decode(AsWritten, from, precision, scale).value.dec
         == Decimal(true, 1, 0, [-255, 0, 0, 0, 0, 0, 0, 0, 0])
    ensures Decode(Corrected, from, precision, scale).Success?
    ensures Decode(Corrected, from, precision, scale).value.dec
         == Decimal(true, 1, 0, [1, 0, 0, 0, 0, 0, 0, 0, 0])
  {
    Decimal10Witness();
    var pl := PlanOf(precision, scale);
    assert SignMask(from[0]) == -1;
    LeadReads(SignStripped(from), pl);
    AssembleLead(pl);
  }

  /** The one-byte group 0xFE of a negative value, read both ways. */
  lemma LeadReads(w: seq<JByte>, pl: Plan)
    requires Shape(pl, 0, 1, 0, 0, 0) && |w| >= 1 && w[0] == -2
    ensures SlotValues(AsWritten, w, pl, -1, pl.GroupCount()) == [-255]
    ensures SlotValues(Corrected, w, pl, -1, pl.GroupCount()) == [1]
  {
    assert pl.GroupCount() == 1;
    assert SlotAt(pl, 0) == LeadInt(1) && Offset(pl, 0) == 0;
    assert w[0..1] == [-2];
    assert ReadInt(AsWritten, [-2], 1) == 254;
    assert ReadInt(Corrected, [-2], 1) == -2;
  }

  /** The group of such a plan, assembled: as written the misread -255 is
      accepted, corrected the packed 1 is. */
  lemma AssembleLead(pl: Plan)
    requires Shape(pl, 0, 1, 0, 0, 0)
    ensures Assemble(AsWritten, pl, -1, [-255]) ==
      Success(Decoded(Decimal(true, 1, 0, [-255, 0, 0, 0, 0, 0, 0, 0, 0]), pl.status))
    ensures Assemble(Corrected, pl, -1, [1]) ==
      Success(Decoded(Decimal(true, 1, 0, [1, 0, 0, 0, 0, 0, 0, 0, 0]), pl.status))
  {
    assert SlotAt(pl, 0) == LeadInt(1);
    assert Powers10[2] == 100;
    assert ZeroPrefix([-255], 1) == 0 && ZeroPrefix([1], 1) == 0;
    assert [-255][0..1] == [-255] && [1][0..1] == [1];
    assert Packed([-255]) == [-255, 0, 0, 0, 0, 0, 0, 0, 0];
    assert Packed([1]) == [1, 0, 0, 0, 0, 0, 0, 0, 0];
  }

  /** `DECIMAL(1,0)` has that shape, and the byte 126 is a whole input. */
  lemma Decimal10Witness()
    ensures ExactColumn(1, 0) && Admissible([126], 1, 0)
    ensures Shape(PlanOf(1, 0), 0, 1, 0, 0, 0)
  {
    assert LayoutOf(1, 0) == Layout(0, 1, 0, 0);
    assert RoundUp(1) == 1 && RoundUp(0) == 0;
  }

  // Finding 2: the range checks compare signed ints.

  /** A full group whose top bit is set passes the signed check as a
      negative number: the bytes 80 00 00 00 80 00 00 00 in `DECIMAL(18,0)`,
      a column of two full integer groups, decode, as written, to the group
      -2^31; corrected
      (the unsigned comparison of the original C) they are rejected. */
  lemma SignedCheckFinding(from: seq<JByte>, precision: Int32, scale: Int32)
    requires |from| >= 8 && from[0] == from[4] == -128
    requires forall i :: 0 < i < 8 && i != 4 ==> from[i] == 0
    requires precision == 18 && scale == 0
    requires Admissible(from, precision, scale)
    ensures Decode(AsWritten, from, precision, scale).Success?
    ensures Decode(AsWritten, from, precision, scale).value.dec
         == Decimal(false, 9, 0, [-TWO31, 0, 0, 0, 0, 0, 0, 0, 0])
    ensures Decode(Corrected, from, precision, scale) == Failure(BadNum)
  {
    Decimal180Witness();
    var pl := PlanOf(precision, scale);
    assert SignMask(from[0]) == 0;
    var w := SignStripped(from);
    assert w[..8] == [0, 0, 0, 0, -128, 0, 0, 0];
    TopBitReads(w, pl);
    AssembleTopBit(pl);
  }

  /** The two full groups 0 and 0x80000000, read both ways. */
  lemma TopBitReads(w: seq<JByte>, pl: Plan)
    requires Shape(pl, 0, 0, 2, 0, 0) && |w| >= 8 && w[..8] == [0, 0, 0, 0, -128, 0, 0, 0]
    ensures SlotValues(AsWritten, w, pl, 0, pl.GroupCount()) == [0, -TWO31]
    ensures SlotValues(Corrected, w, pl, 0, pl.GroupCount()) == [0, -TWO31]
  {
    assert pl.GroupCount() == 2;
    assert SlotAt(pl, 0) == FullInt && SlotAt(pl, 1) == FullInt;
    assert Offset(pl, 0) == 0 && Offset(pl, 1) == 4;
    assert w[0..4] == [0, 0, 0, 0] && w[4..8] == [-128, 0, 0, 0] by {
      assert w[0..4] == w[..8][0..4] && w[4..8] == w[..8][4..8];
    }
    BigEndianPrefixes([0, 0, 0, 0], 4);
    BigEndianPrefixes([-128, 0, 0, 0], 4);
  }

  /** The groups 0 and -2^31 of such a plan, assembled: the zero group is
      elided; as written -2^31 is accepted, corrected it is not. */
  lemma AssembleTopBit(pl: Plan)
    requires Shape(pl, 0, 0, 2, 0, 0)
    ensures Assemble(AsWritten, pl, 0, [0, -TWO31]) ==
      Success(Decoded(Decimal(false, 9, 0, [-TWO31, 0, 0, 0, 0, 0, 0, 0, 0]), pl.status))
    ensures Assemble(Corrected, pl, 0, [0, -TWO31]) == Failure(BadNum)
  {
    var vals := [0, -TWO31];
    assert SlotAt(pl, 0) == FullInt && SlotAt(pl, 1) == FullInt;
    assert !GroupOk(Corrected, SlotAt(pl, 1), -TWO31);
    assert AllGroupsOk(AsWritten, pl, vals);
    assert ZeroPrefix(vals, 2) == 1;
    assert vals[1..2] == [-TWO31];
    assert Packed([-TWO31]) == [-TWO31, 0, 0, 0, 0, 0, 0, 0, 0];
  }

  /** `DECIMAL(18,0)` has that shape, and the eight bytes are a whole input. */
  lemma Decimal180Witness()
    ensures Admissible([-128, 0, 0, 0, -128, 0, 0, 0], 18, 0)
    ensures Shape(PlanOf(18, 0), 0, 0, 2, 0, 0)
  {
    assert LayoutOf(18, 0) == Layout(2, 0, 0, 0);
  }

  // Finding 3: the trailing group is scaled in wrapping int arithmetic.

  /** The trailing fraction group is scaled up in `int`, so an out-of-range
      trailing digit can wrap back into range: the byte 171 (0xAB) in
      `DECIMAL(1,1)`, a column with one one-digit fraction group, holds the
      group 43, and
      43 * 10^8 wraps to 5032704, which passes the check as written;
      corrected, 4300000000 is rejected. The C computes the same wrapping
      product, so this one is inherited rather than introduced by the port. */
  lemma TrailWrapFinding(from: seq<JByte>, precision: Int32, scale: Int32)
    requires precision == 1 && scale == 1
    requires Admissible(from, precision, scale) && from[0] == -85
    ensures Decode(AsWritten, from, precision, scale).Success?
    ensures Decode(AsWritten, from, precision, scale).value.dec
         == Decimal(false, 0, 1, [5032704, 0, 0, 0, 0, 0, 0, 0, 0])
    ensures Decode(Corrected, from, precision, scale) == Failure(BadNum)
  {
    Decimal11Witness();
    var pl := PlanOf(precision, scale);
    assert SignMask(from[0]) == 0;
    TrailReads(SignStripped(from), pl);
    AssembleTrail(pl);
  }

  /** The one-digit trailing group 43, scaled as written and corrected. */
  lemma TrailReads(w: seq<JByte>, pl: Plan)
    requires Shape(pl, 0, 0, 0, 0, 1) && |w| >= 1 && w[0] == 43
    ensures SlotValues(AsWritten, w, pl, 0, pl.GroupCount()) == [5032704]
    ensures SlotValues(Corrected, w, pl, 0, pl.GroupCount()) == [4_300_000_000]
  {
    assert pl.GroupCount() == 1;
    assert SlotAt(pl, 0) == TrailFrac(1) && Offset(pl, 0) == 0;
    assert w[0..1] == [43];
    assert ReadInt(AsWritten, [43], 1) == 43 && ReadInt(Corrected, [43], 1) == 43;
    assert Powers10[DIG_PER_DEC1 - 1] == 100_000_000;
    assert Wrap32(4_300_000_000) == 5032704;
  }

  /** The trailing group of such a plan, assembled: accepted as written
      after the wrap, rejected corrected. */
  lemma AssembleTrail(pl: Plan)
    requires Shape(pl, 0, 0, 0, 0, 1)
    ensures Assemble(AsWritten, pl, 0, [5032704]) ==
      Success(Decoded(Decimal(false, 0, 1, [5032704, 0, 0, 0, 0, 0, 0, 0, 0]), pl.status))
    ensures Assemble(Corrected, pl, 0, [4_300_000_000]) == Failure(BadNum)
  {
    assert SlotAt(pl, 0) == TrailFrac(1);
    assert ZeroPrefix([5032704], 0) == 0;
    assert [5032704][0..1] == [5032704];
    assert Packed([5032704]) == [5032704, 0, 0, 0, 0, 0, 0, 0, 0];
  }

  /** `DECIMAL(1,1)` has that shape, and the byte 171 is a whole input. */
  lemma Decimal11Witness()
    ensures Admissible([-85], 1, 1)
    ensures Shape(PlanOf(1, 1), 0, 0, 0, 0, 1)
  {
    assert LayoutOf(1, 1) == Layout(0, 0, 0, 1);
  }
}
