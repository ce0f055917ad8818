/** The packing `binToDecimal` undoes (MySQL's `decimal2bin`), written
    independently as a reference encoder for columns whose groups all fit
    the buffer, and the facts that connect the two: the corrected decoder
    returns exactly the groups that were packed, while the decoder as
    written misreads some byte windows.
 */
module Packing {
  import opened JavaInt
  import opened ByteOrder
  import opened Layout
  import opened DecimalCodec

  /** A column whose groups all fit the buffer, so the decoder reads every
      group and reports `Exact`. */
  predicate ExactColumn(precision: Int32, scale: Int32) {
    && ValidColumn(precision, scale)
    && precision < TWO31 - 8
    && RoundUp(precision - scale) + RoundUp(scale) <= DECIMAL_BUFF_LENGTH
  }

  /** The plan of such a column reads from offset 0 and keeps every digit. */
  lemma ExactPlan(precision: Int32, scale: Int32)
    requires ExactColumn(precision, scale)
    ensures PlanOf(precision, scale).status == Exact
    ensures PlanOf(precision, scale).skip == 0
    ensures PlanOf(precision, scale).NominalIntg() == precision - scale
    ensures PlanOf(precision, scale).NominalFrac() == scale
    ensures End(PlanOf(precision, scale)) == DecimalBinSize(precision, scale)
  {
    LayoutGroups(precision, scale);
  }

  /** The magnitude of a group of kind `s`: below `10^d` for a group of `d`
      leftover digits, a base-10^9 digit for a full group. */
  predicate Fits(s: Slot, g: int) {
    0 <= g < (if s.LeadInt? || s.TrailFrac? then Pow10(s.digits) else DIG_BASE)
  }

  /** One magnitude per group of the plan, each fitting its group. */
  predicate ValidGroups(pl: Plan, gs: seq<int>)
    requires pl.Valid()
  {
    |gs| == pl.GroupCount() && forall k :: 0 <= k < |gs| ==> Fits(SlotAt(pl, k), gs[k])
  }

  /** Negative values are packed complemented. */
  function PackMask(sign: bool): (mask: Int32)
    ensures IsMask(mask)
  {
    if sign then -1 else 0
  }

  /** Half the range of `w` bytes, as a power of two. */
  lemma HalfRange(w: int)
    requires 1 <= w <= 4
    ensures Pow256(w) / 2 == Pow2(8 * w - 1)
  {
    Pow2Values();
    var a: seq<JByte> := [0, 0, 0, 0];
    BigEndianPrefixes(a, 4);
  }

  /** A magnitude that fits its group, complemented or not, fits the
      group's bytes as a two's complement number. */
  lemma PackedFits(s: Slot, g: int, mask: Int32)
    requires s.LeadInt? || s.TrailFrac? ==> 1 <= s.digits <= 8
    requires Fits(s, g) && IsMask(mask)
    ensures -TWO31 <= g < TWO31
    ensures -(Pow256(Width(s)) / 2) <= XorMask(g, mask) < Pow256(Width(s)) / 2
  {
    HalfRange(Width(s));
    Pow2Values();
    if s.LeadInt? || s.TrailFrac? {
      Dig2BytesIsMinimal(s.digits);
    }
  }

  /** The bytes of group `k`. */
  function GroupImage(pl: Plan, sign: bool, gs: seq<int>, k: nat): (r: seq<JByte>)
    requires pl.Valid() && ValidGroups(pl, gs) && k < |gs|
    ensures |r| == Width(SlotAt(pl, k))
  {
    var s := SlotAt(pl, k);
    PackedFits(s, gs[k], PackMask(sign));
    Store(XorMask(gs[k], PackMask(sign)), Width(s))
  }

  /** The images of all the groups. */
  function Images(pl: Plan, sign: bool, gs: seq<int>): (parts: seq<seq<JByte>>)
    requires pl.Valid() && ValidGroups(pl, gs)
    ensures |parts| == |gs|
    ensures forall k :: 0 <= k < |gs| ==> |parts[k]| == Width(SlotAt(pl, k))
  {
    seq(|gs|, k requires 0 <= k < |gs| => GroupImage(pl, sign, gs, k))
  }

  /** The first `n` parts, back to back. */
  function Concat(parts: seq<seq<JByte>>, n: nat): seq<JByte>
    requires n <= |parts|
  {
    if n == 0 then [] else Concat(parts, n - 1) + parts[n - 1]
  }

  /** A longer concatenation starts with a shorter one. */
  lemma {:induction false} ConcatPrefix(parts: seq<seq<JByte>>, n: nat, m: nat)
    requires n <= m <= |parts|
    ensures |Concat(parts, n)| <= |Concat(parts, m)|
    ensures Concat(parts, m)[..|Concat(parts, n)|] == Concat(parts, n)
    decreases m - n
  {
    if n < m {
      ConcatPrefix(parts, n, m - 1);
      var b := Concat(parts, m - 1);
      assert Concat(parts, m)[..|b|] == b;
    }
  }

  /** Part `k` sits right after the first `k` parts. */
  lemma ConcatSlice(parts: seq<seq<JByte>>, k: nat)
    requires k < |parts|
    ensures |Concat(parts, k)| + |parts[k]| <= |Concat(parts, |parts|)|
    ensures Concat(parts, |parts|)[|Concat(parts, k)|..|Concat(parts, k)| + |parts[k]|] == parts[k]
  {
    ConcatPrefix(parts, k + 1, |parts|);
    var all := Concat(parts, |parts|);
    var upto := Concat(parts, k + 1);
    var at := |Concat(parts, k)|;
    var len := |parts[k]|;
    assert upto == Concat(parts, k) + parts[k];
    assert upto[at..at + len] == parts[k];
    assert all[..at + len] == upto;
    assert all[at..at + len] == all[..at + len][at..at + len];
  }

  /** Parts of the plan's widths, packed from offset 0, start at the
      plan's offsets and end at its end. */
  lemma {:induction false} ConcatOffsets(pl: Plan, parts: seq<seq<JByte>>, n: nat)
    requires pl.Valid() && pl.skip == 0 && |parts| == pl.GroupCount() && n <= |parts|
    requires forall k :: 0 <= k < |parts| ==> |parts[k]| == Width(SlotAt(pl, k))
    ensures n < |parts| ==> |Concat(parts, n)| == Offset(pl, n)
    ensures n == |parts| ==> |Concat(parts, n)| == End(pl)
  {
    if n > 0 {
      ConcatOffsets(pl, parts, n - 1);
      OffsetsAreContiguous(pl, n - 1);
    }
  }

  /** The packed groups, back to back from offset 0. */
  function Body(pl: Plan, sign: bool, gs: seq<int>): (r: seq<JByte>)
    requires pl.Valid() && pl.skip == 0 && ValidGroups(pl, gs)
    ensures |r| == End(pl)
  {
    var parts := Images(pl, sign, gs);
    ConcatOffsets(pl, parts, |parts|);
    Concat(parts, |parts|)
  }

  /** Group `k` is read back from where it was packed. */
  lemma BodySlice(pl: Plan, sign: bool, gs: seq<int>, k: nat)
    requires pl.Valid() && pl.skip == 0 && ValidGroups(pl, gs) && k < |gs|
    ensures Offset(pl, k) + Width(SlotAt(pl, k)) <= |Body(pl, sign, gs)|
    ensures Body(pl, sign, gs)[Offset(pl, k)..Offset(pl, k) + Width(SlotAt(pl, k))]
         == GroupImage(pl, sign, gs, k)
  {
    var parts := Images(pl, sign, gs);
    ConcatSlice(parts, k);
    ConcatOffsets(pl, parts, k);
  }

  /** A group packed as `Store(g ^ mask)` is read back, corrected, as `g`,
      with a trailing group's digits moved to the high end. */
  lemma ReadImage(w: seq<JByte>, off: nat, s: Slot, g: Int32, mask: Int32)
    requires s.LeadInt? || s.TrailFrac? ==> 1 <= s.digits <= 8
    requires Fits(s, g) && IsMask(mask)
    requires off + Width(s) <= |w|
    requires -(Pow256(Width(s)) / 2) <= XorMask(g, mask) < Pow256(Width(s)) / 2
    requires w[off..off + Width(s)] == Store(XorMask(g, mask), Width(s))
    ensures ReadGroup(Corrected, w, off, s, mask) ==
      if s.TrailFrac? then g * Powers10[DIG_PER_DEC1 - s.digits] else g
  {
    var n := XorMask(g, mask);
    ReadStored(w, off, Width(s), n);
    GroupOfRead(Corrected, w, off, s, n, mask);
    assert XorMask(n, mask) == g;
  }

  /** A group whose bytes read as `n` takes the value of `n` unmasked (and
      scaled, for a trailing group). */
  lemma GroupOfRead(v: Variant, w: seq<JByte>, off: nat, s: Slot, n: Int32, mask: Int32)
    requires s.LeadInt? || s.TrailFrac? ==> 1 <= s.digits <= 8
    requires IsMask(mask) && off + Width(s) <= |w|
    requires ReadInt(v, w[off..off + Width(s)], Width(s)) == n
    ensures ReadGroup(v, w, off, s, mask) == GroupValue(v, s, n, mask)
  {
  }

  /** The image of a non-negative number has a clear top bit, so the
      unsigned readers as written read it as the signed ones do. */
  lemma ReadStoredBoth(w: seq<JByte>, off: nat, width: int, n: int)
    requires 1 <= width <= 4 && off + width <= |w|
    requires 0 <= n < Pow256(width) / 2
    requires w[off..off + width] == Store(n, width)
    ensures ReadInt(AsWritten, w[off..off + width], width) == n
    ensures ReadInt(Corrected, w[off..off + width], width) == n
  {
    var bytes := w[off..off + width];
    assert bytes[..width] == bytes;
  }

  /** The bytes `Store(n, width)` at `off` are read back, corrected, as `n`. */
  lemma ReadStored(w: seq<JByte>, off: nat, width: int, n: int)
    requires 1 <= width <= 4 && off + width <= |w|
    requires -(Pow256(width) / 2) <= n < Pow256(width) / 2
    requires w[off..off + width] == Store(n, width)
    ensures ReadInt(Corrected, w[off..off + width], width) == n
  {
    ReadStore(Corrected, n, width);
  }

  /** `decimal2bin` for a column whose groups fit the buffer: each group
      stored high byte first, complemented when negative, and the sign
      flag of the first byte set for a non-negative value. */
  function Encode(precision: Int32, scale: Int32, sign: bool, gs: seq<int>): (r: seq<JByte>)
    requires ExactColumn(precision, scale) && ValidGroups(PlanOf(precision, scale), gs)
    ensures |r| == DecimalBinSize(precision, scale)
  {
    ExactPlan(precision, scale);
    var b := Body(PlanOf(precision, scale), sign, gs);
    b[0 := FlipHighBit(b[0])]
  }

  /** The value the decoder should produce for a packed group: the
      magnitude, with a trailing group's digits moved to the high end. */
  function Expected(pl: Plan, gs: seq<int>): (vals: seq<int>)
    requires pl.Valid() && |gs| == pl.GroupCount()
    ensures |vals| == |gs|
  {
    seq(|gs|, k requires 0 <= k < |gs| =>
      var s := SlotAt(pl, k);
      if s.TrailFrac? then gs[k] * Powers10[DIG_PER_DEC1 - s.digits] else gs[k])
  }

  lemma FlipTwice(a: JByte)
    ensures FlipHighBit(FlipHighBit(a)) == a
  {
  }

  /** The sign flag and the stripped bytes of an encoding. */
  lemma EncodeSign(precision: Int32, scale: Int32, sign: bool, gs: seq<int>)
    requires ExactColumn(precision, scale) && ValidGroups(PlanOf(precision, scale), gs)
    ensures SignMask(Encode(precision, scale, sign, gs)[0]) == PackMask(sign)
    ensures SignStripped(Encode(precision, scale, sign, gs)) == Body(PlanOf(precision, scale), sign, gs)
  {
    var pl := PlanOf(precision, scale);
    ExactPlan(precision, scale);
    var b := Body(pl, sign, gs);
    BodySlice(pl, sign, gs, 0);
    var img := GroupImage(pl, sign, gs, 0);
    assert b[0] == img[0];
    assert Fits(SlotAt(pl, 0), gs[0]);
    assert HighBitSet(img[0]) <==> sign;
    FlipTwice(b[0]);
    assert SignStripped(Encode(precision, scale, sign, gs)) == b;
  }

  /** Each group of an encoding is read back, corrected, as its expected
      value. */
  lemma GroupRoundTrip(precision: Int32, scale: Int32, sign: bool, gs: seq<int>, k: nat)
    requires ExactColumn(precision, scale) && ValidGroups(PlanOf(precision, scale), gs)
    requires k < |gs|
    ensures var from := Encode(precision, scale, sign, gs);
      SlotValue(Corrected, SignStripped(from), PlanOf(precision, scale), SignMask(from[0]), k)
        == Expected(PlanOf(precision, scale), gs)[k]
  {
    ExactPlan(precision, scale);
    EncodeSign(precision, scale, sign, gs);
    BodyRoundTrip(PlanOf(precision, scale), sign, gs, k);
  }

  /** Group `k` of the packed groups is read back, corrected, as its
      expected value. */
  lemma BodyRoundTrip(pl: Plan, sign: bool, gs: seq<int>, k: nat)
    requires pl.Valid() && pl.skip == 0 && ValidGroups(pl, gs) && k < |gs|
    ensures SlotValue(Corrected, Body(pl, sign, gs), pl, PackMask(sign), k) == Expected(pl, gs)[k]
  {
    var w := Body(pl, sign, gs);
    var mask := PackMask(sign);
    var s := SlotAt(pl, k);
    assert Fits(s, gs[k]);
    BodySlice(pl, sign, gs, k);
    PackedFits(s, gs[k], mask);
    ReadImage(w, Offset(pl, k), s, gs[k], mask);
  }

  /** Every expected value passes the corrected range checks. */
  lemma ExpectedOk(pl: Plan, gs: seq<int>)
    requires pl.Valid() && ValidGroups(pl, gs)
    ensures AllGroupsOk(Corrected, pl, Expected(pl, gs))
  {
    var vals := Expected(pl, gs);
    forall k | 0 <= k < |vals|
      ensures GroupOk(Corrected, SlotAt(pl, k), vals[k])
    {
      assert Fits(SlotAt(pl, k), gs[k]);
      SlotOk(SlotAt(pl, k), gs[k]);
    }
  }

  /** A magnitude that fits its group, with a trailing group's digits moved
      to the high end, passes the corrected check for the group. */
  lemma SlotOk(s: Slot, g: int)
    requires s.LeadInt? || s.TrailFrac? ==> 1 <= s.digits <= 8
    requires Fits(s, g)
    ensures GroupOk(Corrected, s, if s.TrailFrac? then g * Powers10[DIG_PER_DEC1 - s.digits] else g)
  {
    if s.LeadInt? {
      Powers10IsPow10(s.digits);
      Powers10IsPow10(s.digits + 1);
    } else if s.TrailFrac? {
      TrailOk(s.digits, g);
    }
  }

  /** `d` digits moved to the high end of a nine-digit group stay below
      `10^9`. */
  lemma TrailOk(d: nat, g: int)
    requires 1 <= d <= 8 && 0 <= g < Pow10(d)
    ensures 0 <= g * Powers10[DIG_PER_DEC1 - d] <= DIG_MAX
  {
    Powers10IsPow10(d);
    var q := Powers10[d];
    var p := Powers10[DIG_PER_DEC1 - d];
    assert q * p == DIG_BASE by {
      Powers10IsPow10(DIG_PER_DEC1 - d);
      PowSplit(d, DIG_PER_DEC1 - d);
      Powers10IsPow10(DIG_PER_DEC1);
    }
    MulMono(g, q - 1, p);
    assert (q - 1) * p == q * p - p;
  }

  lemma MulMono(a: int, b: int, c: nat)
    requires a <= b
    ensures a * c <= b * c
  {
  }

  lemma {:induction false} PowSplit(a: nat, b: nat)
    ensures Pow10(a) * Pow10(b) == Pow10(a + b)
    decreases a
  {
    if a > 0 {
      PowSplit(a - 1, b);
    }
  }

  /** Decoding an encoding, corrected, reads back exactly the packed
      groups: the result is `Exact`, has the packed sign and all the
      fraction digits, and holds the groups after the leading zero integer
      groups, whose digits are dropped from `intg`. */
  lemma EncodeDecode(precision: Int32, scale: Int32, sign: bool, gs: seq<int>)
    requires ExactColumn(precision, scale) && ValidGroups(PlanOf(precision, scale), gs)
    ensures Admissible(Encode(precision, scale, sign, gs), precision, scale)
    ensures var pl := PlanOf(precision, scale);
      var vals := Expected(pl, gs);
      var z := ZeroPrefix(vals, pl.NumInt());
      var r := Decode(Corrected, Encode(precision, scale, sign, gs), precision, scale);
      && r.Success?
      && r.value.status == Exact
      && r.value.dec.sign == sign
      && r.value.dec.intg == precision - scale - ElidedDigits(pl, z)
      && r.value.dec.frac == scale
      && r.value.dec.buf == Packed(vals[z..|vals|])
  {
    var pl := PlanOf(precision, scale);
    var from := Encode(precision, scale, sign, gs);
    ExactPlan(precision, scale);
    EncodeSign(precision, scale, sign, gs);
    var read := SlotValues(Corrected, SignStripped(from), pl, SignMask(from[0]), pl.GroupCount());
    var vals := Expected(pl, gs);
    forall k | 0 <= k < |vals|
      ensures read[k] == vals[k]
    {
      GroupRoundTrip(precision, scale, sign, gs, k);
    }
    assert read == vals;
    ExpectedOk(pl, gs);
  }

  /** A non-negative value is packed uncomplemented, so every group image
      has a clear top bit: the unsigned 1- and 2-byte readers agree with the
      signed ones, every value is non-negative and the trailing product
      stays below `10^9`. The decoder as written therefore returns exactly
      what the corrected one does. */
  lemma EncodeDecodeAsWritten(precision: Int32, scale: Int32, gs: seq<int>)
    requires ExactColumn(precision, scale) && ValidGroups(PlanOf(precision, scale), gs)
    ensures Admissible(Encode(precision, scale, false, gs), precision, scale)
    ensures Decode(AsWritten, Encode(precision, scale, false, gs), precision, scale)
         == Decode(Corrected, Encode(precision, scale, false, gs), precision, scale)
  {
    var pl := PlanOf(precision, scale);
    var from := Encode(precision, scale, false, gs);
    ExactPlan(precision, scale);
    EncodeSign(precision, scale, false, gs);
    BodyReadsAgree(pl, gs);
    AssembleAgrees(pl, 0, SlotValues(Corrected, Body(pl, false, gs), pl, 0, pl.GroupCount()));
  }

  /** On non-negative group values the signed and the unsigned range checks
      agree, so both variants assemble the same result. */
  lemma AssembleAgrees(pl: Plan, mask: Int32, vals: seq<int>)
    requires pl.Valid() && IsMask(mask) && |vals| == pl.GroupCount() <= DECIMAL_BUFF_LENGTH
    requires forall k :: 0 <= k < |vals| ==> 0 <= vals[k]
    ensures Assemble(AsWritten, pl, mask, vals) == Assemble(Corrected, pl, mask, vals)
  {
    assert AllGroupsOk(AsWritten, pl, vals) == AllGroupsOk(Corrected, pl, vals);
  }

  /** The groups of a non-negative packing read the same as written and
      corrected, and none is negative. */
  lemma BodyReadsAgree(pl: Plan, gs: seq<int>)
    requires pl.Valid() && pl.skip == 0 && ValidGroups(pl, gs)
    ensures SlotValues(AsWritten, Body(pl, false, gs), pl, 0, pl.GroupCount())
         == SlotValues(Corrected, Body(pl, false, gs), pl, 0, pl.GroupCount())
    ensures forall k :: 0 <= k < pl.GroupCount() ==>
      0 <= SlotValues(Corrected, Body(pl, false, gs), pl, 0, pl.GroupCount())[k]
  {
    var w := Body(pl, false, gs);
    var asWritten := SlotValues(AsWritten, w, pl, 0, pl.GroupCount());
    var corrected := SlotValues(Corrected, w, pl, 0, pl.GroupCount());
    forall k | 0 <= k < |gs|
      ensures asWritten[k] == corrected[k] && 0 <= corrected[k]
    {
      BodyAsWritten(pl, gs, k);
      BodyRoundTrip(pl, false, gs, k);
      assert Fits(SlotAt(pl, k), gs[k]);
      SlotOk(SlotAt(pl, k), gs[k]);
    }
    assert asWritten == corrected;
  }

  /** Group `k` of a non-negative packing reads the same as written and
      corrected. */
  lemma BodyAsWritten(pl: Plan, gs: seq<int>, k: nat)
    requires pl.Valid() && pl.skip == 0 && ValidGroups(pl, gs) && k < |gs|
    ensures SlotValue(AsWritten, Body(pl, false, gs), pl, 0, k)
         == SlotValue(Corrected, Body(pl, false, gs), pl, 0, k)
  {
    var w := Body(pl, false, gs);
    var s := SlotAt(pl, k);
    var off := Offset(pl, k);
    assert Fits(s, gs[k]);
    BodySlice(pl, false, gs, k);
    PackedFits(s, gs[k], 0);
    ReadStoredBoth(w, off, Width(s), gs[k]);
    GroupOfRead(AsWritten, w, off, s, gs[k], 0);
    GroupOfRead(Corrected, w, off, s, gs[k], 0);
    GroupValueAgrees(s, gs[k]);
  }

  /** A non-negative magnitude that fits its group is unmasked and scaled
      the same as written and corrected: the trailing product stays below
      `10^9`, so it does not wrap. */
  lemma GroupValueAgrees(s: Slot, g: Int32)
    requires s.LeadInt? || s.TrailFrac? ==> 1 <= s.digits <= 8
    requires Fits(s, g)
    ensures GroupValue(AsWritten, s, g, 0) == GroupValue(Corrected, s, g, 0)
  {
    if s.TrailFrac? {
      TrailOk(s.digits, g);
    }
  }

}
