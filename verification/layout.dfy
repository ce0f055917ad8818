/** The binary layout of a packed decimal: the codec's constants, the
    layout size of a (precision, scale) column, and the capacity fix-up that
    decides which digit groups the decoder reads and where.

    A decimal is stored as groups of nine decimal digits, each group in four
    bytes; the digits left over before and after the point that do not fill
    a group are stored in the fewest bytes that hold them (`Dig2Bytes`).
 */
module Layout {
  import opened JavaInt

  const DIG_PER_DEC1: int := 9
  const DIG_BASE: int := 1_000_000_000
  const DIG_MAX: int := DIG_BASE - 1
  const DECIMAL_BUFF_LENGTH: int := 9
  const SIZEOF_DEC1: int := 4

  /** Bytes used for 0..9 leftover digits. */
  const Dig2Bytes: seq<int> := [0, 1, 1, 2, 2, 3, 3, 4, 4, 4]

  const Powers10: seq<int> :=
    [1, 10, 100, 1000, 10000, 100000, 1000000, 10000000, 100000000, 1000000000]

  /** `Powers10` is the table of powers of ten. */
  function Pow10(n: nat): (r: nat)
    ensures r >= 1
  {
    if n == 0 then 1 else 10 * Pow10(n - 1)
  }

  lemma Powers10IsPow10(n: nat)
    requires n < |Powers10|
    ensures Powers10[n] == Pow10(n)
  {
  }

  /** `Dig2Bytes[d]` is the least byte width whose two's complement range
      holds every number of `d` digits, `0 .. 10^d - 1`, and its complement
      `-10^d .. -1`: the most significant bit of the first stored byte has to
      stay free for the sign flag. */
  lemma Dig2BytesIsMinimal(d: nat)
    requires 1 <= d <= 9
    ensures 1 <= Dig2Bytes[d] <= 4
    ensures Pow10(d) <= Pow2(8 * Dig2Bytes[d] - 1)
    ensures Dig2Bytes[d] > 1 ==> Pow10(d) > Pow2(8 * (Dig2Bytes[d] - 1) - 1)
  {
    Pow2Values();
    Powers10IsPow10(d);
  }

  function Pow2(n: nat): (r: nat)
    ensures r >= 1
  {
    if n == 0 then 1 else 2 * Pow2(n - 1)
  }

  lemma Pow2Values()
    ensures Pow2(7) == 0x80 && Pow2(15) == 0x8000
    ensures Pow2(23) == 0x80_0000 && Pow2(31) == 0x8000_0000
  {
    assert Pow2(7) == 0x80;
    assert Pow2(15) == 0x8000;
    assert Pow2(23) == 0x80_0000;
  }

  /** `ROUND_UP(x)`: the number of nine-digit groups `x` digits occupy,
      computed in `int` as `(x + 8) / 9`. */
  function RoundUp(x: Int32): (r: Int32)
    ensures 0 <= x < TWO31 - 8 ==> 9 * r - 9 < x <= 9 * r
    ensures -8 <= x <= 0 ==> r == 0
    ensures x < 0 ==> r <= 0
  {
    JavaDiv9(Wrap32(x + DIG_PER_DEC1 - 1))
  }

  /** The caller's side of the layout functions: a positive precision and a
      scale between zero and it. */
  predicate ValidColumn(precision: Int32, scale: Int32) {
    0 < precision && 0 <= scale <= precision
  }

  /** `decimalBinSize`: the number of bytes a (precision, scale) column
      occupies, the integer digits' bytes plus the fraction digits' bytes. */
  function DecimalBinSize(precision: Int32, scale: Int32): (r: Int32)
    requires ValidColumn(precision, scale)
    ensures r == GroupBytes(precision - scale) + GroupBytes(scale)
    ensures r >= 1
  {
    var intg := precision - scale;
    var i := DigitBytes(intg);
    var f := DigitBytes(scale);
    GroupBytesPositive(if intg > 0 then intg else scale);
    i + f
  }

  /** One side of the point as `decimalBinSize` computes it: `n0` full
      groups of `sizeof_dec1` bytes and `dig2bytes[nx]` bytes for the `nx`
      leftover digits, where Java's `/` and the subtraction `n - n0 * 9` are
      the quotient and remainder of a division by nine. */
  function DigitBytes(n: Int32): (r: int)
    requires n >= 0
    ensures r == GroupBytes(n)
    ensures 9 * r <= 4 * n + 36
  {
    var n0 := JavaDiv9(n);
    var nx := n - n0 * DIG_PER_DEC1;
    DivNine(n, n0);
    Dig2BytesBound(nx);
    n0 * SIZEOF_DEC1 + Dig2Bytes[nx]
  }

  /** A truncated quotient by nine of a non-negative number is the
      Euclidean one. */
  lemma DivNine(a: int, q: int)
    requires 0 <= 9 * q <= a < 9 * q + 9
    ensures q == a / 9 && a - 9 * q == a % 9
  {
  }

  lemma Dig2BytesBound(d: int)
    requires 0 <= d < |Dig2Bytes|
    ensures 0 <= Dig2Bytes[d] <= 4
  {
  }

  /** Bytes needed for `n` digits: four per full group plus the leftover
      digits' width. */
  function GroupBytes(n: nat): nat {
    4 * (n / 9) + Dig2Bytes[n % 9]
  }

  /** At least one digit takes at least one byte. */
  lemma GroupBytesPositive(n: nat)
    requires n >= 1
    ensures GroupBytes(n) >= 1
  {
    if n < 9 {
      assert n / 9 == 0 && n % 9 == n;
    }
  }

  /** One more digit never needs fewer bytes. */
  lemma GroupBytesStep(n: nat)
    ensures GroupBytes(n) <= GroupBytes(n + 1)
  {
    if n % 9 == 8 {
      assert (n + 1) / 9 == n / 9 + 1 && (n + 1) % 9 == 0;
    } else {
      assert (n + 1) / 9 == n / 9 && (n + 1) % 9 == n % 9 + 1;
    }
  }

  lemma {:induction false} GroupBytesMonotone(m: nat, n: nat)
    requires m <= n
    ensures GroupBytes(m) <= GroupBytes(n)
    decreases n - m
  {
    if m < n {
      GroupBytesStep(m);
      GroupBytesMonotone(m + 1, n);
    }
  }

  /** For a fixed scale the layout size does not decrease as the precision
      grows. */
  lemma {:induction false} DecimalBinSizeMonotone(p: Int32, q: Int32, scale: Int32)
    requires ValidColumn(p, scale) && p <= q
    ensures ValidColumn(q, scale)
    ensures DecimalBinSize(p, scale) <= DecimalBinSize(q, scale)
  {
    GroupBytesMonotone(p - scale, q - scale);
  }

  /** It is not strictly increasing, with or without fraction digits: one
      and two integer digits both fit in one byte. */
  lemma DecimalBinSizeNotStrict()
    ensures DecimalBinSize(1, 0) == DecimalBinSize(2, 0) == 1
    ensures DecimalBinSize(7, 0) == DecimalBinSize(9, 0) == 4
    ensures DecimalBinSize(2, 1) == DecimalBinSize(3, 1) == 2
  {
    assert GroupBytes(0) == 0 && GroupBytes(1) == 1 && GroupBytes(2) == 1;
    assert GroupBytes(7) == 4 && GroupBytes(9) == 4;
  }

  /** Digit counts of a column: `intg0` full and `intg0x` leftover integer
      digits, `frac0` full and `frac0x` leftover fraction digits. */
  datatype Layout = Layout(intg0: nat, intg0x: nat, frac0: nat, frac0x: nat)
  {
    predicate Valid() { intg0x < 9 && frac0x < 9 }

    /** `intg1`: integer groups the value needs. */
    function IntGroups(): nat { intg0 + (if intg0x > 0 then 1 else 0) }

    /** `frac1`: fraction groups the value needs. */
    function FracGroups(): nat { frac0 + (if frac0x > 0 then 1 else 0) }
  }

  function LayoutOf(precision: Int32, scale: Int32): (l: Layout)
    requires ValidColumn(precision, scale)
    ensures l.Valid()
    ensures 9 * l.intg0 + l.intg0x == precision - scale
    ensures 9 * l.frac0 + l.frac0x == scale
  {
    var intg := precision - scale;
    Layout(intg / 9, intg % 9, scale / 9, scale % 9)
  }

  /** The group counts of a column are `ROUND_UP` of its digit counts,
      as long as `x + 8` does not wrap. */
  lemma LayoutGroups(precision: Int32, scale: Int32)
    requires ValidColumn(precision, scale) && precision < TWO31 - 8
    ensures LayoutOf(precision, scale).IntGroups() == RoundUp(precision - scale)
    ensures LayoutOf(precision, scale).FracGroups() == RoundUp(scale)
  {
    var l := LayoutOf(precision, scale);
    RoundUpOf(l.intg0, l.intg0x);
    RoundUpOf(l.frac0, l.frac0x);
  }

  /** `ROUND_UP` of `9 * q + x` digits, `x` leftover, is `q` groups, one
      more when there are leftover digits. */
  lemma RoundUpOf(q: nat, x: nat)
    requires x < 9 && 9 * q + x < TWO31 - 8
    ensures RoundUp(9 * q + x) == q + (if x > 0 then 1 else 0)
  {
    var r := RoundUp(9 * q + x);
    assert 9 * r - 9 < 9 * q + x <= 9 * r;
  }

  /** The outcome the decoder records (`E_DEC_OK`, `E_DEC_TRUNCATED`,
      `E_DEC_OVERFLOW`). */
  datatype Status = Exact | Truncated | Overflow

  /** What the decoder reads after the capacity fix-up: `skip` bytes are
      passed over, then a leading group of `lead` digits (none when 0),
      `intFull` full integer groups, `fracFull` full fraction groups and a
      trailing group of `trail` digits (none when 0). */
  datatype Plan = Plan(status: Status, skip: nat, lead: nat, intFull: nat, fracFull: nat, trail: nat)
  {
    predicate Valid() { lead < 9 && trail < 9 }

    function NumLead(): nat { if lead > 0 then 1 else 0 }

    /** Groups before the point, the leading one included. */
    function NumInt(): nat { NumLead() + intFull }

    function GroupCount(): nat { NumInt() + fracFull + (if trail > 0 then 1 else 0) }

    /** `to.intg` and `to.frac` as set right after the fix-up. */
    function NominalIntg(): nat { 9 * intFull + lead }
    function NominalFrac(): nat { 9 * fracFull + trail }
  }

  /** `FIX_INTG_FRAC_ERROR` followed by the adjustment of the group counts
      and of the read offset, step for step as the Java does it. */
  function FixUp(l: Layout): (pl: Plan)
    requires l.Valid()
    ensures pl.Valid()
    ensures pl.status == Overflow <==> l.IntGroups() > DECIMAL_BUFF_LENGTH
    ensures pl.status == Truncated <==>
      l.IntGroups() <= DECIMAL_BUFF_LENGTH < l.IntGroups() + l.FracGroups()
    ensures pl.status == Overflow ==>
      pl == Plan(Overflow, Dig2Bytes[l.intg0x] + 4 * (l.intg0 - 9), 0, 9, 0, 0)
    ensures pl.status == Truncated ==>
      pl == Plan(Truncated, 0, l.intg0x, l.intg0, 9 - l.IntGroups(), 0)
    ensures pl.status == Exact ==>
      pl == Plan(Exact, 0, l.intg0x, l.intg0, l.frac0, l.frac0x)
    ensures pl.GroupCount() <= DECIMAL_BUFF_LENGTH
  {
    var intg1 := l.IntGroups();
    var frac1 := l.FracGroups();
    var len := DECIMAL_BUFF_LENGTH;
    var (intg1', frac1', error) :=
      if intg1 + frac1 > len then
        if intg1 > len then (len, 0, Overflow) else (intg1, len - intg1, Truncated)
      else (intg1, frac1, Exact);
    if error != Exact then
      if intg1' < l.intg0 + (if l.intg0x > 0 then 1 else 0) then
        Plan(error, Dig2Bytes[l.intg0x] + SIZEOF_DEC1 * (l.intg0 - intg1'), 0, intg1', 0, 0)
      else
        Plan(error, 0, l.intg0x, l.intg0, frac1', 0)
    else
      Plan(error, 0, l.intg0x, l.intg0, l.frac0, l.frac0x)
  }

  /** The kind of a group the decoder reads. */
  datatype Slot = LeadInt(digits: nat) | FullInt | FullFrac | TrailFrac(digits: nat)
  {
    predicate IsInt() { LeadInt? || FullInt? }
  }

  /** The `k`-th group read under plan `pl`, in storage order. */
  function SlotAt(pl: Plan, k: nat): (s: Slot)
    requires k < pl.GroupCount()
    ensures s.IsInt() <==> k < pl.NumInt()
    ensures s.LeadInt? ==> s.digits == pl.lead && pl.lead > 0
    ensures s.TrailFrac? ==> s.digits == pl.trail && pl.trail > 0
  {
    if k < pl.NumLead() then LeadInt(pl.lead)
    else if k < pl.NumInt() then FullInt
    else if k < pl.NumInt() + pl.fracFull then FullFrac
    else TrailFrac(pl.trail)
  }

  /** Bytes a group occupies. */
  function Width(s: Slot): (w: int)
    requires s.LeadInt? || s.TrailFrac? ==> 1 <= s.digits <= 8
    ensures 1 <= w <= 4
  {
    match s
    case LeadInt(d) => Dig2Bytes[d]
    case FullInt => SIZEOF_DEC1
    case FullFrac => SIZEOF_DEC1
    case TrailFrac(d) => Dig2Bytes[d]
  }

  function LeadWidth(pl: Plan): nat
    requires pl.Valid()
  {
    if pl.lead > 0 then Dig2Bytes[pl.lead] else 0
  }

  /** Where the `k`-th group starts in the byte window: only the leading
      group can be narrower than four bytes, and only the trailing group
      follows the last full one. */
  function Offset(pl: Plan, k: nat): nat
    requires pl.Valid() && k < pl.GroupCount()
  {
    if k < pl.NumLead() then pl.skip else pl.skip + LeadWidth(pl) + 4 * (k - pl.NumLead())
  }

  /** One past the last byte read. */
  function End(pl: Plan): nat
    requires pl.Valid()
  {
    pl.skip + LeadWidth(pl) + 4 * (pl.intFull + pl.fracFull) + (if pl.trail > 0 then Dig2Bytes[pl.trail] else 0)
  }

  /** Groups are read back to back: each starts where the previous ends, and
      the last one ends at `End`. */
  lemma OffsetsAreContiguous(pl: Plan, k: nat)
    requires pl.Valid() && k < pl.GroupCount()
    ensures Offset(pl, k) + Width(SlotAt(pl, k)) ==
      if k + 1 < pl.GroupCount() then Offset(pl, k + 1) else End(pl)
  {
  }

  /** Every byte the decoder reads lies inside the column's layout size. */
  lemma ReadsStayInWindow(precision: Int32, scale: Int32)
    requires ValidColumn(precision, scale)
    ensures End(FixUp(LayoutOf(precision, scale))) <= DecimalBinSize(precision, scale)
    ensures FixUp(LayoutOf(precision, scale)).GroupCount() >= 1
  {
  }

  /** The plan of a column: its layout after the fix-up. */
  function PlanOf(precision: Int32, scale: Int32): (pl: Plan)
    requires ValidColumn(precision, scale)
    ensures pl.Valid()
    ensures End(pl) <= DecimalBinSize(precision, scale)
    ensures 1 <= pl.GroupCount() <= DECIMAL_BUFF_LENGTH
  {
    ReadsStayInWindow(precision, scale);
    FixUp(LayoutOf(precision, scale))
  }
}
