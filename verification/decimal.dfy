/** `binToDecimal`: restoring a decimal from its packed binary form.

    `Decode` states the result declaratively, group by group: the group at
    slot `k` of the fix-up plan is read at its closed-form `Offset`, the sign
    mask is applied, and the result is the failure `BadNum` when any group is
    out of range, and otherwise the groups after the maximal run of zero
    leading integer groups. `BinToDecimal` is the Java algorithm itself, with
    its running read offset and buffer index, proved to compute `Decode`.
 */
module DecimalCodec {
  import opened JavaInt
  import opened ByteOrder
  import opened Layout

  /** The Java class `Decimal`: `sign` is true for a negative value, `intg`
      and `frac` count decimal digits before and after the point, and `buf`
      holds the base-10^9 groups, most significant first. */
  datatype Decimal = Decimal(sign: bool, intg: Int32, frac: Int32, buf: seq<Int32>)

  /** A decimal as the decoder leaves it: digit counts between zero and
      what the buffer can hold, the buffer of `DECIMAL_BUFF_LENGTH` groups, the `ROUND_UP(intg)` integer
      groups followed by the `ROUND_UP(frac)` fraction groups at its front,
      and zeros after them. */
  predicate WellFormed(d: Decimal) {
    && 0 <= d.intg <= DIG_PER_DEC1 * DECIMAL_BUFF_LENGTH
    && 0 <= d.frac <= DIG_PER_DEC1 * DECIMAL_BUFF_LENGTH
    && |d.buf| == DECIMAL_BUFF_LENGTH
    && RoundUp(d.intg) + RoundUp(d.frac) <= DECIMAL_BUFF_LENGTH
    && forall i :: RoundUp(d.intg) + RoundUp(d.frac) <= i < |d.buf| ==> d.buf[i] == 0
  }

  /** `new Decimal()`: a buffer of `DECIMAL_BUFF_LENGTH` zero groups. */
  function EmptyBuf(): (b: seq<Int32>)
    ensures |b| == DECIMAL_BUFF_LENGTH
    ensures forall i :: 0 <= i < |b| ==> b[i] == 0
  {
    seq(DECIMAL_BUFF_LENGTH, _ => 0)
  }

  /** `E_DEC_BAD_NUM`, which the Java raises as an exception. */
  datatype DecodeError = BadNum

  /** A decoded value with the status the decoder computed for it (the Java
      computes the status and drops it). */
  datatype Decoded = Decoded(dec: Decimal, status: Status)

  datatype Result<T> = Success(value: T) | Failure(error: DecodeError)

  /** What the decoder needs from its caller: a valid column and a byte
      window at least as long as the column's layout size. */
  predicate Admissible(from: seq<JByte>, precision: Int32, scale: Int32) {
    ValidColumn(precision, scale) && |from| >= DecimalBinSize(precision, scale)
  }

  /** `(from[0] & 0x80) != 0 ? 0 : -1`: a clear sign flag marks a negative
      value, whose groups are stored complemented. */
  function SignMask(first: JByte): (mask: Int32)
    ensures IsMask(mask)
    ensures mask == 0 <==> HighBitSet(first)
  {
    if HighBitSet(first) then 0 else -1
  }

  /** The caller's bytes after the call: `from[0] ^= 0x80` has toggled the
      sign flag of the first byte in place. */
  function SignStripped(from: seq<JByte>): (r: seq<JByte>)
    requires |from| >= 1
    ensures |r| == |from|
    ensures HighBitSet(r[0]) <==> !HighBitSet(from[0])
    ensures UByte(r[0]) == (UByte(from[0]) + 128) % 256
    ensures forall i :: 1 <= i < |from| ==> r[i] == from[i]
  {
    from[0 := FlipHighBit(from[0])]
  }

  /** The value a group takes after it is read and unmasked. A trailing
      fraction group is multiplied up so that its digits sit at the high end
      of the group; as written that product wraps in `int`. */
  function GroupValue(v: Variant, s: Slot, x: Int32, mask: Int32): (r: int)
    requires IsMask(mask)
    requires s.TrailFrac? ==> 1 <= s.digits <= 8
    ensures v == AsWritten ==> -TWO31 <= r < TWO31
    ensures !s.TrailFrac? ==> r == XorMask(x, mask)
    ensures s.TrailFrac? ==> (r - XorMask(x, mask) * Powers10[DIG_PER_DEC1 - s.digits]) % TWO32 == 0
    ensures s.TrailFrac? && (v == Corrected || -TWO31 <= XorMask(x, mask) * Powers10[DIG_PER_DEC1 - s.digits] < TWO31)
         ==> r == XorMask(x, mask) * Powers10[DIG_PER_DEC1 - s.digits]
  {
    var m := XorMask(x, mask);
    match s
    case TrailFrac(d) =>
      if v == AsWritten then Wrap32(m * Powers10[DIG_PER_DEC1 - d]) else m * Powers10[DIG_PER_DEC1 - d]
    case _ => m
  }

  /** The range check a group must pass (lines 204, 221, 234, 252). As
      written the comparisons are signed `int` comparisons, so a negative
      value passes; corrected, the value is compared as unsigned (the C
      casts it to `uint32`), so a negative value fails. */
  predicate GroupOk(v: Variant, s: Slot, val: int)
    requires s.LeadInt? ==> 1 <= s.digits <= 8
  {
    var bound := if s.LeadInt? then Powers10[s.digits + 1] - 1 else DIG_MAX;
    (if v == Corrected then 0 <= val else -TWO31 <= val) && val <= bound
  }

  /** Reading one group of kind `s` at offset `off`: its bytes are copied
      out (`Arrays.copyOfRange`), unpacked by the reader for their width, and
      unmasked. */
  function ReadGroup(v: Variant, w: seq<JByte>, off: nat, s: Slot, mask: Int32): (r: int)
    requires IsMask(mask)
    requires s.LeadInt? || s.TrailFrac? ==> 1 <= s.digits <= 8
    requires off + Width(s) <= |w|
    ensures v == AsWritten ==> -TWO31 <= r < TWO31
  {
    var width := Width(s);
    GroupValue(v, s, ReadInt(v, w[off..off + width], width), mask)
  }

  /** The value read for slot `k` of plan `pl` from the sign-stripped bytes. */
  function SlotValue(v: Variant, w: seq<JByte>, pl: Plan, mask: Int32, k: nat): (r: int)
    requires pl.Valid() && End(pl) <= |w| && IsMask(mask) && k < pl.GroupCount()
    ensures v == AsWritten ==> -TWO31 <= r < TWO31
  {
    EndBound(pl, k);
    ReadGroup(v, w, Offset(pl, k), SlotAt(pl, k), mask)
  }

  lemma EndBound(pl: Plan, k: nat)
    requires pl.Valid() && k < pl.GroupCount()
    ensures Offset(pl, k) + Width(SlotAt(pl, k)) <= End(pl)
  {
  }

  /** The values of the first `n` groups, in storage order. */
  function SlotValues(v: Variant, w: seq<JByte>, pl: Plan, mask: Int32, n: nat): (vals: seq<int>)
    requires pl.Valid() && End(pl) <= |w| && IsMask(mask) && n <= pl.GroupCount()
    ensures |vals| == n
  {
    seq(n, k requires 0 <= k < n => SlotValue(v, w, pl, mask, k))
  }

  /** `vals` are the values of all the groups of the plan, in storage
      order. The quantifier is triggered only by a `SlotValue` term, so the
      decoding loops, which never mention one, carry `vals` without
      unfolding the readers. */
  ghost predicate ReadsAs(v: Variant, w: seq<JByte>, pl: Plan, mask: Int32, vals: seq<int>)
    requires pl.Valid() && End(pl) <= |w| && IsMask(mask)
  {
    && |vals| == pl.GroupCount()
    && forall k: nat {:trigger SlotValue(v, w, pl, mask, k)} ::
         k < |vals| ==> vals[k] == SlotValue(v, w, pl, mask, k)
  }

  /** The values `Decode` reads are described by `ReadsAs`. */
  lemma SlotValuesReadAs(v: Variant, w: seq<JByte>, pl: Plan, mask: Int32)
    requires pl.Valid() && End(pl) <= |w| && IsMask(mask)
    ensures ReadsAs(v, w, pl, mask, SlotValues(v, w, pl, mask, pl.GroupCount()))
  {
    var vals := SlotValues(v, w, pl, mask, pl.GroupCount());
    forall k: nat | k < |vals|
      ensures vals[k] == SlotValue(v, w, pl, mask, k)
    {
    }
  }

  predicate AllGroupsOk(v: Variant, pl: Plan, vals: seq<int>)
    requires pl.Valid() && |vals| == pl.GroupCount()
  {
    forall k :: 0 <= k < |vals| ==> GroupOk(v, SlotAt(pl, k), vals[k])
  }

  /** The number of leading zero groups among the first `n`: the groups the
      decoder elides, since it stores a zero integer group only after some
      group has been stored. */
  function ZeroPrefix(vals: seq<int>, n: nat): (z: nat)
    requires n <= |vals|
    ensures z <= n
    ensures forall i :: 0 <= i < z ==> vals[i] == 0
    ensures z < n ==> vals[z] != 0
  {
    if n == 0 then 0
    else
      var z := ZeroPrefix(vals, n - 1);
      if z == n - 1 && vals[n - 1] == 0 then n else z
  }

  /** Digits removed from `intg` when the first `z` integer groups are
      elided: the leading group's own digit count, and nine for each full
      group. */
  function ElidedDigits(pl: Plan, z: nat): nat {
    if z == 0 then 0 else if pl.lead > 0 then pl.lead + 9 * (z - 1) else 9 * z
  }

  /** The declarative result of `binToDecimal(from, precision, scale)`:
      the groups of the column's plan read from the sign-stripped bytes and
      unmasked with the sign mask of the first byte, then assembled. */
  function Decode(v: Variant, from: seq<JByte>, precision: Int32, scale: Int32): (r: Result<Decoded>)
    requires Admissible(from, precision, scale)
  {
    var pl := PlanOf(precision, scale);
    var mask := SignMask(from[0]);
    Assemble(v, pl, mask, SlotValues(v, SignStripped(from), pl, mask, pl.GroupCount()))
  }

  /** The decoded value, given the values of the plan's groups: `BadNum`
      when any group fails its check; otherwise the groups after the leading
      zero run, with `intg` reduced by the digits of the elided groups. */
  function Assemble(v: Variant, pl: Plan, mask: Int32, vals: seq<int>): (r: Result<Decoded>)
    requires pl.Valid() && IsMask(mask) && |vals| == pl.GroupCount() <= DECIMAL_BUFF_LENGTH
  {
    if !AllGroupsOk(v, pl, vals) then Failure(BadNum)
    else
      var z := ZeroPrefix(vals, pl.NumInt());
      OkGroupsFit(v, pl, vals);
      var buf := Narrow(Packed(vals[z..|vals|]));
      Success(Decoded(Decimal(mask != 0, pl.NominalIntg() - ElidedDigits(pl, z), pl.NominalFrac(), buf), pl.status))
  }

  /** The stored groups followed by zeros up to the buffer length. */
  function Packed(groups: seq<int>): (b: seq<int>)
    requires |groups| <= DECIMAL_BUFF_LENGTH
    ensures |b| == DECIMAL_BUFF_LENGTH
  {
    groups + seq(DECIMAL_BUFF_LENGTH - |groups|, _ => 0)
  }

  /** The buffer starts with the groups and is zero after them. */
  lemma PackedContents(groups: seq<int>)
    requires |groups| <= DECIMAL_BUFF_LENGTH
    ensures forall i :: 0 <= i < |groups| ==> Packed(groups)[i] == groups[i]
    ensures forall i :: |groups| <= i < DECIMAL_BUFF_LENGTH ==> Packed(groups)[i] == 0
  {
  }

  /** The same numbers, known to fit in Java `int`s. */
  function Narrow(s: seq<int>): (r: seq<Int32>)
    requires forall i :: 0 <= i < |s| ==> -TWO31 <= s[i] < TWO31
    ensures r == s
  {
    seq(|s|, i requires 0 <= i < |s| => s[i] as Int32)
  }

  /** Groups that all passed their checks fit in Java `int`s. */
  lemma OkGroupsFit(v: Variant, pl: Plan, vals: seq<int>)
    requires pl.Valid() && |vals| == pl.GroupCount()
    requires AllGroupsOk(v, pl, vals)
    ensures forall i :: 0 <= i < |vals| ==> -TWO31 <= vals[i] < TWO31
  {
    forall i | 0 <= i < |vals|
      ensures -TWO31 <= vals[i] < TWO31
    {
      assert GroupOk(v, SlotAt(pl, i), vals[i]);
    }
  }

  /** `binToDecimal` as the Java runs it. `stripped` is the caller's array
      after the call, which differs from `from` in the sign flag of the first
      byte, whether the decode succeeds or fails. */
  method BinToDecimal(v: Variant, from: seq<JByte>, precision: Int32, scale: Int32)
    returns (r: Result<Decoded>, stripped: seq<JByte>)
    requires Admissible(from, precision, scale)
    ensures stripped == SignStripped(from)
    ensures r == Decode(v, from, precision, scale)
  {
    var mask := if HighBitSet(from[0]) then 0 else -1;
    stripped := from[0 := FlipHighBit(from[0])];
    var error, fI, intg0x, intg0, frac0, frac0x := ColumnPlan(precision, scale);
    ghost var pl := PlanOf(precision, scale);
    SlotValuesReadAs(v, stripped, pl, mask);
    r := DecodeGroups(v, stripped, mask, pl, SlotValues(v, stripped, pl, mask, pl.GroupCount()),
                      error, fI, intg0x, intg0, frac0, frac0x);
  }

  /** `binToDecimal` on the caller's array: the array is left with the
      sign flag of its first byte toggled, and the result is the one read
      from its bytes on entry. */
  method BinToDecimalInPlace(v: Variant, from: array<JByte>, precision: Int32, scale: Int32)
    returns (r: Result<Decoded>)
    requires Admissible(from[..], precision, scale)
    modifies from
    ensures from[..] == SignStripped(old(from[..]))
    ensures r == Decode(v, old(from[..]), precision, scale)
  {
    var stripped;
    r, stripped := BinToDecimal(v, from[..], precision, scale);
    from[0] := stripped[0];
    assert from[..] == stripped;
  }

  /** Lines 188-261: every group of the plan read in turn, then the result
      built from the sign, the digit counts and the buffer. */
  method DecodeGroups(v: Variant, w: seq<JByte>, mask: Int32, ghost pl: Plan, ghost vals: seq<int>,
                      error: Status, fI0: int, intg0x: int, intg0: int, frac0: int, frac0x: int)
    returns (r: Result<Decoded>)
    requires pl.Valid() && End(pl) <= |w| && IsMask(mask) && pl.GroupCount() <= DECIMAL_BUFF_LENGTH
    requires ReadsAs(v, w, pl, mask, vals)
    requires pl.status == error && pl.skip == fI0 && pl.lead == intg0x && pl.intFull == intg0
    requires pl.fracFull == frac0 && pl.trail == frac0x
    ensures r == Assemble(v, pl, mask, vals)
  {
    var sign := mask != 0;
    var toIntg := intg0 * DIG_PER_DEC1 + intg0x;
    var toFrac := frac0 * DIG_PER_DEC1 + frac0x;

    var ok, fI, bI, buf;
    ok, fI, bI, buf, toIntg := ReadIntegerGroups(v, w, mask, pl, vals, fI0, intg0x, intg0, toIntg);
    if !ok {
      return Failure(BadNum);
    }
    ok, bI, buf := ReadFractionGroups(v, w, mask, pl, vals, fI, frac0, frac0x, bI, buf);
    if !ok {
      return Failure(BadNum);
    }
    AssembleAccepts(v, pl, mask, vals, bI, buf, toIntg);
    r := Success(Decoded(Decimal(sign, toIntg, toFrac, buf), error));
  }

  /** Lines 129-186: the group counts of the column and the
      `FIX_INTG_FRAC_ERROR` fix-up, giving the status, the first byte to
      read and the groups to read, which are the plan's. */
  method ColumnPlan(precision: Int32, scale: Int32)
    returns (error: Status, fI: int, intg0x: int, intg0: int, frac0: int, frac0x: int)
    requires ValidColumn(precision, scale)
    ensures fI >= 0 && intg0x >= 0 && intg0 >= 0 && frac0 >= 0 && frac0x >= 0
    ensures Plan(error, fI, intg0x, intg0, frac0, frac0x) == PlanOf(precision, scale)
  {
    var intg := precision - scale;
    var i0 := JavaDiv9(intg);
    var f0 := JavaDiv9(scale);
    var ix := intg - i0 * DIG_PER_DEC1;
    var fx := scale - f0 * DIG_PER_DEC1;
    DivNine(intg, i0);
    DivNine(scale, f0);
    assert LayoutOf(precision, scale) == Layout(i0, ix, f0, fx);
    error, fI, intg0x, intg0, frac0, frac0x := FixUpSteps(i0, ix, f0, fx);
  }

  /** Lines 132-182: the fix-up applied to the digit counts of a column. */
  method FixUpSteps(intg0In: int, intg0xIn: int, frac0In: int, frac0xIn: int)
    returns (error: Status, fI: int, intg0x: int, intg0: int, frac0: int, frac0x: int)
    requires 0 <= intg0In && 0 <= intg0xIn < 9 && 0 <= frac0In && 0 <= frac0xIn < 9
    ensures fI >= 0 && intg0x >= 0 && intg0 >= 0 && frac0 >= 0 && frac0x >= 0
    ensures Plan(error, fI, intg0x, intg0, frac0, frac0x) == FixUp(Layout(intg0In, intg0xIn, frac0In, frac0xIn))
  {
    intg0, intg0x, frac0, frac0x := intg0In, intg0xIn, frac0In, frac0xIn;
    var intg1 := intg0 + (if intg0x > 0 then 1 else 0);
    var frac1 := frac0 + (if frac0x > 0 then 1 else 0);
    fI := 0;

    // FIX_INTG_FRAC_ERROR
    if intg1 + frac1 > DECIMAL_BUFF_LENGTH {
      if intg1 > DECIMAL_BUFF_LENGTH {
        intg1 := DECIMAL_BUFF_LENGTH;
        frac1 := 0;
        error := Overflow;
      } else {
        frac1 := DECIMAL_BUFF_LENGTH - intg1;
        error := Truncated;
      }
    } else {
      error := Exact;
    }

    if error != Exact {
      if intg1 < intg0 + (if intg0x > 0 then 1 else 0) {
        fI := Dig2Bytes[intg0x] + SIZEOF_DEC1 * (intg0 - intg1);
        frac0, frac0x, intg0x := 0, 0, 0;
        intg0 := intg1;
      } else {
        frac0x := 0;
        frac0 := frac1;
      }
    }
  }

  /** Reading the group of slot `k` at the running offset `fI` gives the
      slot's value; any group but a trailing one fits in an `int`. */
  method ReadSlot(v: Variant, w: seq<JByte>, mask: Int32, ghost pl: Plan, ghost vals: seq<int>,
                  ghost k: nat, fI: int, s: Slot)
    returns (val: int)
    requires pl.Valid() && End(pl) <= |w| && IsMask(mask) && k < pl.GroupCount()
    requires ReadsAs(v, w, pl, mask, vals)
    requires fI == Offset(pl, k) && s == SlotAt(pl, k)
    ensures val == vals[k]
    ensures v == AsWritten || !s.TrailFrac? ==> -TWO31 <= val < TWO31
  {
    EndBound(pl, k);
    val := ReadGroup(v, w, fI, s, mask);
    assert val == SlotValue(v, w, pl, mask, k);
  }

  /** Lines 188-227: the leading partial integer group, then the full
      integer groups, eliding zero groups until one has been stored. */
  method ReadIntegerGroups(v: Variant, w: seq<JByte>, mask: Int32, ghost pl: Plan, ghost vals: seq<int>,
                           fI0: int, intg0x: int, intg0: int, toIntg0: int)
    returns (ok: bool, fI: int, bI: int, buf: seq<Int32>, toIntg: int)
    requires pl.Valid() && End(pl) <= |w| && IsMask(mask) && pl.GroupCount() <= DECIMAL_BUFF_LENGTH
    requires ReadsAs(v, w, pl, mask, vals)
    requires fI0 == pl.skip && intg0x == pl.lead && intg0 == pl.intFull
    ensures ok ==> AllOkBelow(v, pl, vals, pl.NumInt())
    ensures ok ==> Elided(pl, vals, pl.NumInt(), bI, buf, toIntg0 - toIntg)
    ensures ok ==> fI == pl.skip + LeadWidth(pl) + 4 * pl.intFull
    ensures !ok ==> !AllGroupsOk(v, pl, vals)
  {
    ok, fI, bI, buf, toIntg := ReadLeadGroup(v, w, mask, pl, vals, fI0, intg0x, toIntg0);
    if !ok {
      return;
    }
    ghost var k := pl.NumLead();
    var stop := fI + intg0 * SIZEOF_DEC1;
    while fI < stop
      invariant pl.NumLead() <= k <= pl.NumInt()
      invariant fI == pl.skip + LeadWidth(pl) + 4 * (k - pl.NumLead())
      invariant stop == pl.skip + LeadWidth(pl) + 4 * intg0
      invariant AllOkBelow(v, pl, vals, k)
      invariant Elided(pl, vals, k, bI, buf, toIntg0 - toIntg)
    {
      assert k < pl.NumInt() && SlotAt(pl, k) == FullInt;
      var val := ReadSlot(v, w, mask, pl, vals, k, fI, FullInt);
      if !GroupOk(v, FullInt, val) {
        return false, fI, bI, buf, toIntg;
      }
      bI, buf, toIntg := StoreIntGroup(pl, vals, k, bI, buf, toIntg, toIntg0, val as Int32, DIG_PER_DEC1);
      k := k + 1;
      fI := fI + SIZEOF_DEC1;
    }
  }

  /** Lines 188-209: the leading partial integer group, when there is one,
      checked against `powers10[intg0x + 1]` and elided when zero. */
  method ReadLeadGroup(v: Variant, w: seq<JByte>, mask: Int32, ghost pl: Plan, ghost vals: seq<int>,
                       fI0: int, intg0x: int, toIntg0: int)
    returns (ok: bool, fI: int, bI: int, buf: seq<Int32>, toIntg: int)
    requires pl.Valid() && End(pl) <= |w| && IsMask(mask) && pl.GroupCount() <= DECIMAL_BUFF_LENGTH
    requires ReadsAs(v, w, pl, mask, vals)
    requires fI0 == pl.skip && intg0x == pl.lead
    ensures ok ==> AllOkBelow(v, pl, vals, pl.NumLead())
    ensures ok ==> Elided(pl, vals, pl.NumLead(), bI, buf, toIntg0 - toIntg)
    ensures ok ==> fI == pl.skip + LeadWidth(pl)
    ensures !ok ==> !AllGroupsOk(v, pl, vals)
  {
    buf := EmptyBuf();
    bI := 0;
    fI := fI0;
    toIntg := toIntg0;
    assert Packed(vals[0..0]) == buf;
    if intg0x != 0 {
      var i := Dig2Bytes[intg0x];
      var val := ReadSlot(v, w, mask, pl, vals, 0, fI, LeadInt(intg0x));
      fI := fI + i;
      if !GroupOk(v, LeadInt(intg0x), val) {
        return false, fI, bI, buf, toIntg;
      }
      bI, buf, toIntg := StoreIntGroup(pl, vals, 0, bI, buf, toIntg, toIntg0, val as Int32, intg0x);
    }
    ok := true;
  }

  /** Storing integer group `k`, of `digits` digits, at the buffer index:
      the index advances unless nothing has been stored yet and the group is
      zero, in which case `intg` loses the group's digits. */
  method StoreIntGroup(ghost pl: Plan, ghost vals: seq<int>, ghost k: nat, bI0: int, buf0: seq<Int32>,
                       toIntg0: int, ghost toIntgStart: int, val: Int32, digits: int)
    returns (bI: int, buf: seq<Int32>, toIntg: int)
    requires pl.Valid() && |vals| == pl.GroupCount() <= DECIMAL_BUFF_LENGTH
    requires k < pl.NumInt() && val == vals[k]
    requires digits == if k < pl.NumLead() then pl.lead else DIG_PER_DEC1
    requires Elided(pl, vals, k, bI0, buf0, toIntgStart - toIntg0)
    ensures Elided(pl, vals, k + 1, bI, buf, toIntgStart - toIntg)
  {
    ElideStep(pl, vals, k, bI0, buf0, toIntgStart - toIntg0, val);
    buf := buf0[bI0 := val];
    bI, toIntg := bI0, toIntg0;
    if bI > 0 || val != 0 {
      bI := bI + 1;
    } else {
      toIntg := toIntg - digits;
    }
  }

  /** Lines 229-254: the full fraction groups and the trailing partial one,
      all stored. */
  method ReadFractionGroups(v: Variant, w: seq<JByte>, mask: Int32, ghost pl: Plan, ghost vals: seq<int>,
                            fI0: int, frac0: int, frac0x: int, bI0: int, buf0: seq<Int32>)
    returns (ok: bool, bI: int, buf: seq<Int32>)
    requires pl.Valid() && End(pl) <= |w| && IsMask(mask) && pl.GroupCount() <= DECIMAL_BUFF_LENGTH
    requires ReadsAs(v, w, pl, mask, vals)
    requires frac0 == pl.fracFull && frac0x == pl.trail
    requires fI0 == pl.skip + LeadWidth(pl) + 4 * pl.intFull
    requires AllOkBelow(v, pl, vals, pl.NumInt())
    requires Stored(vals, ZeroPrefix(vals, pl.NumInt()), pl.NumInt(), bI0, buf0)
    ensures ok ==> AllGroupsOk(v, pl, vals)
    ensures ok ==> Stored(vals, ZeroPrefix(vals, pl.NumInt()), |vals|, bI, buf)
    ensures !ok ==> !AllGroupsOk(v, pl, vals)
  {
    ghost var z := ZeroPrefix(vals, pl.NumInt());
    ghost var k := pl.NumInt();
    var fI := fI0;
    bI, buf := bI0, buf0;
    var stop := fI + frac0 * SIZEOF_DEC1;
    while fI < stop
      invariant pl.NumInt() <= k <= pl.NumInt() + pl.fracFull
      invariant fI == pl.skip + LeadWidth(pl) + 4 * (k - pl.NumLead())
      invariant stop == pl.skip + LeadWidth(pl) + 4 * (pl.intFull + frac0)
      invariant AllOkBelow(v, pl, vals, k)
      invariant Stored(vals, z, k, bI, buf)
    {
      var val := ReadSlot(v, w, mask, pl, vals, k, fI, FullFrac);
      if !GroupOk(v, FullFrac, val) {
        return false, bI, buf;
      }
      bI, buf := StoreGroup(vals, z, k, bI, buf, val as Int32);
      k := k + 1;
      fI := fI + SIZEOF_DEC1;
    }

    ok, bI, buf := ReadTrailGroup(v, w, mask, pl, vals, fI, frac0x, bI, buf);
  }

  /** Lines 240-253: the trailing partial fraction group, when there is
      one, multiplied up so that its digits are the high digits of the
      group, and stored. */
  method ReadTrailGroup(v: Variant, w: seq<JByte>, mask: Int32, ghost pl: Plan, ghost vals: seq<int>,
                        fI: int, frac0x: int, bI0: int, buf0: seq<Int32>)
    returns (ok: bool, bI: int, buf: seq<Int32>)
    requires pl.Valid() && End(pl) <= |w| && IsMask(mask) && pl.GroupCount() <= DECIMAL_BUFF_LENGTH
    requires ReadsAs(v, w, pl, mask, vals)
    requires frac0x == pl.trail
    requires fI == pl.skip + LeadWidth(pl) + 4 * (pl.intFull + pl.fracFull)
    requires AllOkBelow(v, pl, vals, pl.NumInt() + pl.fracFull)
    requires Stored(vals, ZeroPrefix(vals, pl.NumInt()), pl.NumInt() + pl.fracFull, bI0, buf0)
    ensures ok ==> AllGroupsOk(v, pl, vals)
    ensures ok ==> Stored(vals, ZeroPrefix(vals, pl.NumInt()), |vals|, bI, buf)
    ensures !ok ==> !AllGroupsOk(v, pl, vals)
  {
    ghost var k := pl.NumInt() + pl.fracFull;
    bI, buf := bI0, buf0;
    if frac0x != 0 {
      var val := ReadSlot(v, w, mask, pl, vals, k, fI, TrailFrac(frac0x));
      if !GroupOk(v, TrailFrac(frac0x), val) {
        return false, bI, buf;
      }
      bI, buf := StoreGroup(vals, ZeroPrefix(vals, pl.NumInt()), k, bI, buf, val as Int32);
      assert AllOkBelow(v, pl, vals, k + 1);
    }
    AllOkBelowEach(v, pl, vals, |vals|);
    ok := true;
  }

  /** Storing group `k` at the buffer index, which advances. */
  method StoreGroup(ghost vals: seq<int>, ghost z: nat, ghost k: nat, bI0: int, buf0: seq<Int32>, val: Int32)
    returns (bI: int, buf: seq<Int32>)
    requires Stored(vals, z, k, bI0, buf0) && k < |vals| <= DECIMAL_BUFF_LENGTH && val == vals[k]
    ensures Stored(vals, z, k + 1, bI, buf)
  {
    StoreStep(vals, z, k, buf0);
    buf := buf0[bI0 := val];
    bI := bI0 + 1;
  }

  /** When every group passes, the state the two phases leave behind is the
      value `Assemble` builds. */
  lemma AssembleAccepts(v: Variant, pl: Plan, mask: Int32, vals: seq<int>, bI: int, buf: seq<Int32>, toIntg: int)
    requires pl.Valid() && IsMask(mask) && |vals| == pl.GroupCount() <= DECIMAL_BUFF_LENGTH
    requires AllGroupsOk(v, pl, vals)
    requires Stored(vals, ZeroPrefix(vals, pl.NumInt()), |vals|, bI, buf)
    requires toIntg == pl.NominalIntg() - ElidedDigits(pl, ZeroPrefix(vals, pl.NumInt()))
    ensures Assemble(v, pl, mask, vals) ==
      Success(Decoded(Decimal(mask != 0, toIntg, pl.NominalFrac(), buf), pl.status))
  {
    var z := ZeroPrefix(vals, pl.NumInt());
    var groups := Packed(vals[z..|vals|]);
    OkGroupsFit(v, pl, vals);
    PackedContents(vals[z..|vals|]);
    assert forall i :: 0 <= i < |groups| ==> -TWO31 <= groups[i] < TWO31;
  }

  /** One integer group more: it is stored unless nothing has been stored
      yet and it is zero, in which case its digits are dropped from `intg`. */
  lemma ElideStep(pl: Plan, vals: seq<int>, k: nat, bI: int, buf: seq<int>, dropped: int, val: Int32)
    requires pl.Valid() && |vals| == pl.GroupCount() && k < pl.NumInt() && val == vals[k]
    requires pl.GroupCount() <= DECIMAL_BUFF_LENGTH
    requires Elided(pl, vals, k, bI, buf, dropped)
    ensures 0 <= bI < DECIMAL_BUFF_LENGTH
    ensures bI > 0 || val != 0 ==> Elided(pl, vals, k + 1, bI + 1, buf[bI := val], dropped)
    ensures bI == 0 && val == 0 ==>
      Elided(pl, vals, k + 1, bI, buf[bI := val], dropped + (if k < pl.NumLead() then pl.lead else 9))
  {
    var z := ZeroPrefix(vals, k);
    assert ZeroPrefix(vals, k + 1) == if z == k && vals[k] == 0 then k + 1 else z;
    if bI == 0 && val == 0 {
      assert vals[k + 1..k + 1] == vals[k..k] == [];
      assert buf[bI := val] == buf;
    } else {
      StoreStep(vals, z, k, buf);
    }
  }

  /** Every group before slot `k` passed its check. */
  ghost predicate AllOkBelow(v: Variant, pl: Plan, vals: seq<int>, k: nat)
    requires pl.Valid() && |vals| == pl.GroupCount() && k <= |vals|
  {
    k == 0 || (AllOkBelow(v, pl, vals, k - 1) && GroupOk(v, SlotAt(pl, k - 1), vals[k - 1]))
  }

  lemma {:induction false} AllOkBelowEach(v: Variant, pl: Plan, vals: seq<int>, k: nat)
    requires pl.Valid() && |vals| == pl.GroupCount() && k <= |vals|
    requires AllOkBelow(v, pl, vals, k)
    ensures forall i :: 0 <= i < k ==> GroupOk(v, SlotAt(pl, i), vals[i])
  {
    if k > 0 {
      AllOkBelowEach(v, pl, vals, k - 1);
    }
  }

  /** After the first `k` groups: the groups after the leading zero run
      are stored in order at the front of `buf`, and the rest of `buf` is
      still zero. */
  ghost predicate Stored(vals: seq<int>, z: nat, k: nat, bI: int, buf: seq<int>) {
    && z <= k <= |vals|
    && k - z <= DECIMAL_BUFF_LENGTH
    && bI == k - z
    && buf == Packed(vals[z..k])
  }

  /** Storing the next group at the buffer index extends the stored run. */
  lemma StoreStep(vals: seq<int>, z: nat, k: nat, buf: seq<int>)
    requires z <= k < |vals| && k - z < DECIMAL_BUFF_LENGTH
    requires buf == Packed(vals[z..k])
    ensures buf[k - z := vals[k]] == Packed(vals[z..k + 1])
  {
    assert vals[z..k + 1] == vals[z..k] + [vals[k]];
    PackedContents(vals[z..k]);
    PackedContents(vals[z..k + 1]);
  }

  /** The integer phase: `Stored` for the current zero run, and `dropped`
      the digits of the elided groups, which `intg` has lost. */
  ghost predicate Elided(pl: Plan, vals: seq<int>, k: nat, bI: int, buf: seq<int>, dropped: int)
    requires pl.Valid() && |vals| == pl.GroupCount() && k <= pl.NumInt()
  {
    && Stored(vals, ZeroPrefix(vals, k), k, bI, buf)
    && dropped == ElidedDigits(pl, ZeroPrefix(vals, k))
  }
}
