/** What a successful or failed `binToDecimal` promises about its result.

    The facts are proved first about `Assemble`, for arbitrary group values,
    and then carried over to `Decode`, whose group values are the ones read
    from the bytes.
 */
module DecodeFacts {
  import opened JavaInt
  import opened ByteOrder
  import opened Layout
  import opened DecimalCodec

  /** `intg` after eliding the first `z` integer groups still rounds up to
      the number of integer groups that are stored. */
  lemma ElidedRoundUp(pl: Plan, z: nat)
    requires pl.Valid() && z <= pl.NumInt() && pl.NumInt() <= DECIMAL_BUFF_LENGTH
    ensures ElidedDigits(pl, z) <= pl.NominalIntg()
    ensures RoundUp(pl.NominalIntg() - ElidedDigits(pl, z)) == pl.NumInt() - z
  {
    if z == 0 {
      RoundUpOf(pl.intFull, pl.lead);
    } else if pl.lead > 0 {
      RoundUpOf(pl.intFull - (z - 1), 0);
    } else {
      RoundUpOf(pl.intFull - z, 0);
    }
  }

  /** The shape of an assembled result: it fails exactly when some group
      fails its check, and a success is well formed, has the sign of the
      mask, the fraction digits and status of the plan, no leading zero
      group unless the integer part is empty, and, corrected, only groups
      that are base-10^9 digits. */
  lemma AssembleShape(v: Variant, pl: Plan, mask: Int32, vals: seq<int>)
    requires pl.Valid() && IsMask(mask) && |vals| == pl.GroupCount() <= DECIMAL_BUFF_LENGTH
    ensures Assemble(v, pl, mask, vals).Failure? <==> !AllGroupsOk(v, pl, vals)
    ensures Assemble(v, pl, mask, vals).Success? ==>
      var d := Assemble(v, pl, mask, vals).value;
      && d.status == pl.status
      && WellFormed(d.dec)
      && d.dec.sign == (mask != 0)
      && d.dec.frac == pl.NominalFrac()
      && d.dec.intg <= pl.NominalIntg()
      && (d.dec.intg == 0 || d.dec.buf[0] != 0)
      && (v == Corrected ==> forall i :: 0 <= i < |d.dec.buf| ==> 0 <= d.dec.buf[i] <= DIG_MAX)
  {
    if AllGroupsOk(v, pl, vals) {
      var z := ZeroPrefix(vals, pl.NumInt());
      OkGroupsFit(v, pl, vals);
      var d := Assemble(v, pl, mask, vals).value.dec;
      ElidedRoundUp(pl, z);
      AcceptedShape(pl, vals, z, d);
      AcceptedLead(pl, vals, z, d);
      if v == Corrected {
        AcceptedDigits(pl, vals, z, d);
      }
    }
  }

  /** The buffer of an accepted read: the groups after the elided zero run,
      then zeros; `intg` rounds up to the number of integer groups kept. */
  lemma AcceptedShape(pl: Plan, vals: seq<int>, z: nat, d: Decimal)
    requires pl.Valid() && |vals| == pl.GroupCount() <= DECIMAL_BUFF_LENGTH
    requires z == ZeroPrefix(vals, pl.NumInt())
    requires d.intg == pl.NominalIntg() - ElidedDigits(pl, z) && d.frac == pl.NominalFrac()
    requires d.buf == Packed(vals[z..|vals|])
    ensures WellFormed(d)
  {
    var groups := vals[z..|vals|];
    ElidedRoundUp(pl, z);
    RoundUpOf(pl.fracFull, pl.trail);
    NominalBounds(pl);
    PackedWellFormed(d, groups);
  }

  /** The buffer of an accepted read starts with a non-zero group unless
      the integer part is empty. */
  lemma AcceptedLead(pl: Plan, vals: seq<int>, z: nat, d: Decimal)
    requires pl.Valid() && |vals| == pl.GroupCount() <= DECIMAL_BUFF_LENGTH
    requires z == ZeroPrefix(vals, pl.NumInt())
    requires d.intg == pl.NominalIntg() - ElidedDigits(pl, z)
    requires d.buf == Packed(vals[z..|vals|])
    ensures d.intg == 0 || d.buf[0] != 0
  {
    if d.intg != 0 {
      LeadKept(pl, vals, z);
      PackedContents(vals[z..|vals|]);
      assert d.buf[0] == vals[z];
    }
  }

  /** A non-empty integer part after the elision starts at a kept
      integer group, which is not zero. */
  lemma LeadKept(pl: Plan, vals: seq<int>, z: nat)
    requires pl.Valid() && |vals| == pl.GroupCount() <= DECIMAL_BUFF_LENGTH
    requires z == ZeroPrefix(vals, pl.NumInt())
    requires pl.NominalIntg() - ElidedDigits(pl, z) != 0
    ensures z < pl.NumInt() && vals[z] != 0
  {
  }

  /** Nine digits per group at most, on each side of the point. */
  lemma NominalBounds(pl: Plan)
    requires pl.Valid()
    ensures pl.NominalIntg() <= DIG_PER_DEC1 * pl.NumInt()
    ensures pl.NominalFrac() <= DIG_PER_DEC1 * (pl.GroupCount() - pl.NumInt())
  {
  }

  /** A buffer packed from as many groups as `intg` and `frac` round up
      to is well formed. */
  lemma PackedWellFormed(d: Decimal, groups: seq<int>)
    requires |groups| <= DECIMAL_BUFF_LENGTH && d.buf == Packed(groups)
    requires 0 <= d.intg <= DIG_PER_DEC1 * DECIMAL_BUFF_LENGTH
    requires 0 <= d.frac <= DIG_PER_DEC1 * DECIMAL_BUFF_LENGTH
    requires RoundUp(d.intg) + RoundUp(d.frac) == |groups|
    ensures WellFormed(d)
  {
    PackedContents(groups);
  }

  /** Corrected, every group of an accepted read is a base-10^9 digit. */
  lemma AcceptedDigits(pl: Plan, vals: seq<int>, z: nat, d: Decimal)
    requires pl.Valid() && |vals| == pl.GroupCount() <= DECIMAL_BUFF_LENGTH
    requires AllGroupsOk(Corrected, pl, vals) && z <= |vals|
    requires d.buf == Packed(vals[z..|vals|])
    ensures forall i :: 0 <= i < |d.buf| ==> 0 <= d.buf[i] <= DIG_MAX
  {
    var groups := vals[z..|vals|];
    PackedContents(groups);
    forall i | 0 <= i < |d.buf|
      ensures 0 <= d.buf[i] <= DIG_MAX
    {
      if i < |groups| {
        assert d.buf[i] == vals[z + i];
        assert GroupOk(Corrected, SlotAt(pl, z + i), vals[z + i]);
      }
    }
  }

  /** `binToDecimal` fails with `BadNum` exactly when some group, read at its
      slot from the sign-stripped bytes and unmasked, is out of range. */
  lemma DecodeFailsIff(v: Variant, from: seq<JByte>, precision: Int32, scale: Int32)
    requires Admissible(from, precision, scale)
    ensures Decode(v, from, precision, scale).Failure? <==>
      exists k: nat :: k < PlanOf(precision, scale).GroupCount() &&
        !GroupOk(v, SlotAt(PlanOf(precision, scale), k),
                 SlotValue(v, SignStripped(from), PlanOf(precision, scale), SignMask(from[0]), k))
  {
    var pl := PlanOf(precision, scale);
    var mask := SignMask(from[0]);
    var vals := SlotValues(v, SignStripped(from), pl, mask, pl.GroupCount());
    AssembleShape(v, pl, mask, vals);
    if !AllGroupsOk(v, pl, vals) {
      var k :| 0 <= k < |vals| && !GroupOk(v, SlotAt(pl, k), vals[k]);
      assert vals[k] == SlotValue(v, SignStripped(from), pl, mask, k);
    } else {
      forall k: nat | k < pl.GroupCount()
        ensures GroupOk(v, SlotAt(pl, k), SlotValue(v, SignStripped(from), pl, mask, k))
      {
        assert vals[k] == SlotValue(v, SignStripped(from), pl, mask, k);
      }
    }
  }

  /** What an assembled success keeps: `intg` loses exactly the digits of
      the elided groups, and every group from the end of the zero run on is
      stored in order from the front of the buffer, with zeros after. */
  lemma AssembleKeeps(v: Variant, pl: Plan, mask: Int32, vals: seq<int>)
    requires pl.Valid() && IsMask(mask) && |vals| == pl.GroupCount() <= DECIMAL_BUFF_LENGTH
    ensures Assemble(v, pl, mask, vals).Success? ==>
      var z := ZeroPrefix(vals, pl.NumInt());
      var d := Assemble(v, pl, mask, vals).value.dec;
      && d.intg == pl.NominalIntg() - ElidedDigits(pl, z)
      && (forall k :: z <= k < |vals| ==> d.buf[k - z] == vals[k])
      && (forall i :: |vals| - z <= i < |d.buf| ==> d.buf[i] == 0)
  {
    if AllGroupsOk(v, pl, vals) {
      var z := ZeroPrefix(vals, pl.NumInt());
      var d := Assemble(v, pl, mask, vals).value.dec;
      assert d.buf == Packed(vals[z..|vals|]);
      PackedFrom(vals, z);
    }
  }

  /** The buffer packed from the groups after the first `z`. */
  lemma PackedFrom(vals: seq<int>, z: nat)
    requires z <= |vals| && |vals| - z <= DECIMAL_BUFF_LENGTH
    ensures forall k :: z <= k < |vals| ==> Packed(vals[z..|vals|])[k - z] == vals[k]
    ensures forall i :: |vals| - z <= i < DECIMAL_BUFF_LENGTH ==> Packed(vals[z..|vals|])[i] == 0
  {
    var groups := vals[z..|vals|];
    PackedContents(groups);
    forall k | z <= k < |vals|
      ensures Packed(groups)[k - z] == vals[k]
    {
      assert groups[k - z] == vals[k];
    }
  }

  /** `d` keeps the groups read from `w` as `binToDecimal` does: the first
      `z` integer groups read are zero and elided, the next one (when `z` is
      short of the integer groups) is not zero, `intg` loses exactly the
      elided digits, and every group from slot `z` on, every fraction group
      among them, is stored in order from the front of the buffer, with
      zeros after. */
  ghost predicate KeptGroups(v: Variant, w: seq<JByte>, pl: Plan, mask: Int32, d: Decimal)
    requires pl.Valid() && End(pl) <= |w| && IsMask(mask)
  {
    var z := ZeroPrefix(SlotValues(v, w, pl, mask, pl.GroupCount()), pl.NumInt());
    && |d.buf| == DECIMAL_BUFF_LENGTH
    && z <= pl.NumInt() <= pl.GroupCount() <= DECIMAL_BUFF_LENGTH
    && (forall k :: 0 <= k < z ==> SlotValue(v, w, pl, mask, k) == 0)
    && (z < pl.NumInt() ==> SlotValue(v, w, pl, mask, z) != 0)
    && d.intg == pl.NominalIntg() - ElidedDigits(pl, z)
    && (forall k :: z <= k < pl.GroupCount() ==> d.buf[k - z] == SlotValue(v, w, pl, mask, k))
    && (forall i :: pl.GroupCount() - z <= i < |d.buf| ==> d.buf[i] == 0)
  }

  /** An assembled success from the values read from a byte window keeps
      them. */
  lemma ReadKeeps(v: Variant, w: seq<JByte>, pl: Plan, mask: Int32)
    requires pl.Valid() && End(pl) <= |w| && IsMask(mask) && pl.GroupCount() <= DECIMAL_BUFF_LENGTH
    ensures var vals := SlotValues(v, w, pl, mask, pl.GroupCount());
      Assemble(v, pl, mask, vals).Success? ==> KeptGroups(v, w, pl, mask, Assemble(v, pl, mask, vals).value.dec)
  {
    var vals := SlotValues(v, w, pl, mask, pl.GroupCount());
    AssembleKeeps(v, pl, mask, vals);
    SlotValuesReadAs(v, w, pl, mask);
  }

  /** A successful `binToDecimal` keeps the groups it read from the
      sign-stripped bytes. */
  lemma DecodeKeeps(v: Variant, from: seq<JByte>, precision: Int32, scale: Int32)
    requires Admissible(from, precision, scale)
    ensures Decode(v, from, precision, scale).Success? ==>
      KeptGroups(v, SignStripped(from), PlanOf(precision, scale), SignMask(from[0]),
                 Decode(v, from, precision, scale).value.dec)
  {
    ReadKeeps(v, SignStripped(from), PlanOf(precision, scale), SignMask(from[0]));
  }

  /** A successful `binToDecimal`: the value is negative exactly when the
      sign flag (bit 7 of the first byte) is clear; the status follows the
      group counts the column needs against the nine the buffer has; the
      fraction keeps all its digits when they fit, fills what is left of the
      buffer when the value is truncated, and is dropped on overflow; the
      integer part never grows; the result is well formed with no leading
      zero group; and, corrected, every group is a base-10^9 digit. */
  lemma DecodeShape(v: Variant, from: seq<JByte>, precision: Int32, scale: Int32)
    requires Admissible(from, precision, scale) && precision < TWO31 - 8
    ensures Decode(v, from, precision, scale).Success? ==>
      var d := Decode(v, from, precision, scale).value;
      var intg1 := RoundUp(precision - scale);
      var frac1 := RoundUp(scale);
      && (d.dec.sign <==> !HighBitSet(from[0]))
      && (d.status == Overflow <==> intg1 > DECIMAL_BUFF_LENGTH)
      && (d.status == Truncated <==> intg1 <= DECIMAL_BUFF_LENGTH < intg1 + frac1)
      && (d.status == Exact <==> intg1 + frac1 <= DECIMAL_BUFF_LENGTH)
      && (d.status == Exact ==> d.dec.frac == scale && d.dec.intg <= precision - scale)
      && (d.status == Truncated ==>
            d.dec.frac == DIG_PER_DEC1 * (DECIMAL_BUFF_LENGTH - intg1) && d.dec.intg <= precision - scale)
      && (d.status == Overflow ==> d.dec.frac == 0 && d.dec.intg <= DIG_PER_DEC1 * DECIMAL_BUFF_LENGTH)
      && WellFormed(d.dec)
      && (d.dec.intg == 0 || d.dec.buf[0] != 0)
      && (v == Corrected ==> forall i :: 0 <= i < |d.dec.buf| ==> 0 <= d.dec.buf[i] <= DIG_MAX)
  {
    var pl := PlanOf(precision, scale);
    var mask := SignMask(from[0]);
    AssembleShape(v, pl, mask, SlotValues(v, SignStripped(from), pl, mask, pl.GroupCount()));
    LayoutGroups(precision, scale);
  }
}
