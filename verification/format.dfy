/** `Decimal.toString`: the sign, then the digit groups as nine-digit,
    zero-padded `%09d` tokens separated by `.`.

    The text is given back its meaning by an independent parser, and the
    main facts are that parsing the printed text returns the sign and the
    printed groups.
 */
module Format {
  import opened JavaInt
  import opened Layout
  import opened ByteOrder
  import opened DecimalCodec
  import opened DecodeFacts

  predicate IsDigit(c: char) {
    '0' <= c <= '9'
  }

  predicate AllDigits(s: string) {
    forall i :: 0 <= i < |s| ==> IsDigit(s[i])
  }

  function DigitChar(d: int): (c: char)
    requires 0 <= d < 10
    ensures IsDigit(c)
  {
    ('0' as int + d) as char
  }

  /** The value of a character, zero for one that is not a digit. */
  function CharValue(c: char): (d: nat)
    ensures d < 10
  {
    if IsDigit(c) then c as int - '0' as int else 0
  }

  /** `n` in decimal, without leading zeros ("0" for zero). */
  function DecimalDigits(n: nat): (r: string)
    ensures 1 <= |r| && AllDigits(r)
    ensures n > 0 ==> r[0] != '0'
  {
    if n < 10 then [DigitChar(n)] else DecimalDigits(n / 10) + [DigitChar(n % 10)]
  }

  /** The number a digit string denotes, read most significant first. */
  function DigitsValue(s: string): nat {
    if |s| == 0 then 0 else 10 * DigitsValue(s[..|s| - 1]) + CharValue(s[|s| - 1])
  }

  function Zeros(k: nat): (r: string)
    ensures |r| == k && AllDigits(r)
  {
    seq(k, _ => '0')
  }

  /** `String.format("%09d", n)`: an optional minus sign, then the digits of
      `|n|`, padded with zeros after the sign to a width of nine. */
  function Format09(n: int): (r: string)
    ensures |r| >= 9
    ensures |r| > 0 && (r[0] == '-' <==> n < 0)
    ensures 0 <= n < DIG_BASE ==> |r| == 9 && AllDigits(r)
  {
    var digits := DecimalDigits(if n < 0 then -n else n);
    var sign := if n < 0 then "-" else "";
    var pad := 9 - |sign| - |digits|;
    assert 0 <= n < DIG_BASE ==> |digits| <= 9 by {
      if 0 <= n < DIG_BASE { Powers10IsPow10(9); DigitsBound(n, 9); }
    }
    sign + Zeros(if pad > 0 then pad else 0) + digits
  }

  /** A number below `10^m` has at most `m` digits. */
  lemma {:induction false} DigitsBound(n: nat, m: nat)
    requires 1 <= m && n < Pow10(m)
    ensures |DecimalDigits(n)| <= m
    decreases n
  {
    if n >= 10 {
      assert m >= 2;
      assert n / 10 < Pow10(m - 1);
      DigitsBound(n / 10, m - 1);
    }
  }

  /** Reading back the digits of `n` gives `n`. */
  lemma {:induction false} DigitsValueOfDigits(n: nat)
    ensures DigitsValue(DecimalDigits(n)) == n
    decreases n
  {
    if n >= 10 {
      var s := DecimalDigits(n);
      DigitsValueOfDigits(n / 10);
      assert s[..|s| - 1] == DecimalDigits(n / 10);
    }
  }

  /** Leading zeros do not change the value of a digit string. */
  lemma {:induction false} LeadingZerosValue(k: nat, s: string)
    ensures DigitsValue(Zeros(k) + s) == DigitsValue(s)
    decreases |s|, k
  {
    if |s| == 0 {
      if k > 0 {
        assert (Zeros(k) + s)[..k - 1] == Zeros(k - 1) + s;
        LeadingZerosValue(k - 1, s);
      }
    } else {
      var t := Zeros(k) + s;
      assert t[..|t| - 1] == Zeros(k) + s[..|s| - 1];
      LeadingZerosValue(k, s[..|s| - 1]);
    }
  }

  /** The token of a base-10^9 digit is nine digits that denote it. */
  lemma Format09Value(n: int)
    requires 0 <= n < DIG_BASE
    ensures DigitsValue(Format09(n)) == n
  {
    var digits := DecimalDigits(n);
    Powers10IsPow10(9);
    DigitsBound(n, 9);
    assert Format09(n) == Zeros(9 - |digits|) + digits;
    LeadingZerosValue(9 - |digits|, digits);
    DigitsValueOfDigits(n);
  }

  /** `end` in `toString`: `ROUND_UP(frac) + ROUND_UP(intg) - 1`. */
  function EndIndex(d: Decimal): int {
    RoundUp(d.frac) + RoundUp(d.intg) - 1
  }

  /** The index of the last group printed: the loop stops at `end`, or
      does not run when `end` is not positive. */
  function Last(d: Decimal): nat {
    if EndIndex(d) > 0 then EndIndex(d) else 0
  }

  /** The tokens of `gs`, each followed by `.`. */
  function Dotted(gs: seq<Int32>): string {
    if |gs| == 0 then "" else Dotted(gs[..|gs| - 1]) + (Format09(gs[|gs| - 1]) + ".")
  }

  /** The tokens of `gs` separated by `.`. */
  function Joined(gs: seq<Int32>): string
    requires |gs| >= 1
  {
    Dotted(gs[..|gs| - 1]) + Format09(gs[|gs| - 1])
  }

  function SignText(d: Decimal): string {
    if d.sign then "-" else ""
  }

  /** `toString()`. The Java indexes `buf` up to `Last(d)`, so it throws
      unless that index is in the buffer. */
  function ToString(d: Decimal): string
    requires Last(d) < |d.buf|
  {
    SignText(d) + Joined(d.buf[..Last(d) + 1])
  }

  /** The text after `i` turns of the loop: the sign and the first `i`
      tokens, each followed by `.`. */
  function Partial(d: Decimal, i: nat): string
    requires i <= |d.buf|
  {
    SignText(d) + Dotted(d.buf[..i])
  }

  lemma PartialStep(d: Decimal, i: nat)
    requires i < |d.buf|
    ensures Partial(d, i + 1) == Partial(d, i) + (Format09(d.buf[i]) + ".")
  {
    assert d.buf[..i + 1][..i] == d.buf[..i];
  }

  lemma PartialDone(d: Decimal)
    requires Last(d) < |d.buf|
    ensures ToString(d) == Partial(d, Last(d)) + Format09(d.buf[Last(d)])
  {
    var i := Last(d);
    assert d.buf[..i + 1][..i] == d.buf[..i];
  }

  /** The formatting loop as the Java writes it, appending to a buffer. */
  method FormatDecimal(d: Decimal) returns (r: string)
    requires Last(d) < |d.buf|
    ensures r == ToString(d)
  {
    var sb: string := if d.sign then "-" else "";
    var end: int := RoundUp(d.frac) + RoundUp(d.intg) - 1;
    ghost var last := Last(d);
    assert last == if end > 0 then end else 0;
    var i := 0;
    assert d.buf[..0] == [];
    while i < end
      invariant 0 <= i <= last
      invariant sb == Partial(d, i)
    {
      PartialStep(d, i);
      sb := sb + (Format09(d.buf[i]) + ".");
      i := i + 1;
    }
    PartialDone(d);
    r := sb + Format09(d.buf[i]);
  }

  /** The printed text read back: an optional minus sign, then the value
      of each ten-character chunk's first nine characters. */
  function ParseText(s: string): (bool, seq<int>) {
    if |s| > 0 && s[0] == '-' then (true, ParseGroups(s[1..])) else (false, ParseGroups(s))
  }

  function ParseGroups(s: string): (r: seq<int>)
    ensures |r| >= 1
    decreases |s|
  {
    if |s| <= 9 then [DigitsValue(s)] else [DigitsValue(s[..9])] + ParseGroups(s[10..])
  }

  /** Every group a base-10^9 digit. */
  predicate Digits(gs: seq<Int32>) {
    forall i :: 0 <= i < |gs| ==> 0 <= gs[i] < DIG_BASE
  }

  /** The first token comes first: `Dotted` unrolled from the front. */
  lemma {:induction false} DottedFront(gs: seq<Int32>)
    requires |gs| >= 1
    ensures Dotted(gs) == Format09(gs[0]) + "." + Dotted(gs[1..])
    decreases |gs|
  {
    if |gs| > 1 {
      var init := gs[..|gs| - 1];
      DottedFront(init);
      assert init[1..] == gs[1..][..|gs| - 2];
      assert init[0] == gs[0];
    } else {
      assert gs[..0] == [] && gs[1..] == [];
    }
  }

  /** Parsing the joined tokens of base-10^9 digits gives the digits back. */
  lemma {:induction false} ParseJoined(gs: seq<Int32>)
    requires |gs| >= 1 && Digits(gs)
    ensures ParseGroups(Joined(gs)) == gs
    decreases |gs|
  {
    var t := Format09(gs[0]);
    Format09Value(gs[0]);
    if |gs| == 1 {
      assert gs[..0] == [];
      assert Joined(gs) == t;
    } else {
      var rest := gs[1..];
      DottedFront(gs[..|gs| - 1]);
      assert gs[..|gs| - 1][1..] == rest[..|rest| - 1];
      assert Joined(gs) == t + "." + Joined(rest);
      var s := Joined(gs);
      assert s[..9] == t;
      assert s[10..] == Joined(rest);
      ParseJoined(rest);
    }
  }

  /** The printed groups of a decimal. */
  function Printed(d: Decimal): seq<Int32>
    requires Last(d) < |d.buf|
  {
    d.buf[..Last(d) + 1]
  }

  /** `toString` loses nothing it prints: when every printed group is a
      base-10^9 digit, reading the text back gives the sign and the groups
      `buf[0..end]`, and the text is one nine-digit token per group with a
      `.` between neighbours. */
  lemma ToStringParses(d: Decimal)
    requires Last(d) < |d.buf| && Digits(Printed(d))
    ensures ParseText(ToString(d)) == (d.sign, Printed(d))
    ensures |ToString(d)| == |SignText(d)| + 10 * Last(d) + 9
  {
    var gs := Printed(d);
    ParseJoined(gs);
    JoinedLength(gs);
    var j := Joined(gs);
    JoinedFirst(gs);
    assert 0 <= gs[0] < DIG_BASE;
    assert Format09(gs[0])[0] != '-';
    if d.sign {
      assert ToString(d) == "-" + j;
      assert ToString(d)[1..] == j;
    } else {
      assert ToString(d) == j;
    }
  }

  /** The text starts with the first group's token. */
  lemma JoinedFirst(gs: seq<Int32>)
    requires |gs| >= 1
    ensures |Joined(gs)| >= 9 && Joined(gs)[0] == Format09(gs[0])[0]
  {
    if |gs| > 1 {
      DottedFront(gs[..|gs| - 1]);
      assert gs[..|gs| - 1][0] == gs[0];
    } else {
      assert gs[..0] == [];
    }
  }

  /** `toString` starts with `-` exactly when the sign is set or, for a
      positive value, the first group is negative and `%09d` prints its
      minus sign. */
  lemma ToStringSign(d: Decimal)
    requires Last(d) < |d.buf|
    ensures |ToString(d)| > 0
    ensures ToString(d)[0] == '-' <==> d.sign || d.buf[0] < 0
  {
    JoinedFirst(Printed(d));
  }

  /** Each group after the first adds ten characters. */
  lemma {:induction false} JoinedLength(gs: seq<Int32>)
    requires |gs| >= 1 && Digits(gs)
    ensures |Joined(gs)| == 10 * (|gs| - 1) + 9
  {
    DottedLength(gs[..|gs| - 1]);
  }

  lemma {:induction false} DottedLength(gs: seq<Int32>)
    requires Digits(gs)
    ensures |Dotted(gs)| == 10 * |gs|
    decreases |gs|
  {
    if |gs| > 0 {
      DottedLength(gs[..|gs| - 1]);
    }
  }

  /** The zero value, with no digits before or after the point, prints as
      nine zeros. */
  lemma ZeroText()
    ensures ToString(Decimal(false, 0, 0, EmptyBuf())) == "000000000"
  {
    var d := Decimal(false, 0, 0, EmptyBuf());
    assert Last(d) == 0;
    assert Printed(d) == [0];
    assert DecimalDigits(0) == "0";
    assert Format09(0) == Zeros(8) + "0";
  }

  /** A well-formed value prints inside its buffer, one token per stored
      group (at least one); when its groups are base-10^9 digits, the text
      reads back as its sign and groups. */
  lemma WellFormedText(d: Decimal, digits: bool)
    requires WellFormed(d)
    requires digits ==> forall i :: 0 <= i < |d.buf| ==> 0 <= d.buf[i] <= DIG_MAX
    ensures Last(d) < |d.buf|
    ensures |Printed(d)| == (if RoundUp(d.intg) + RoundUp(d.frac) > 0 then RoundUp(d.intg) + RoundUp(d.frac) else 1)
    ensures digits ==> ParseText(ToString(d)) == (d.sign, Printed(d))
  {
    if digits {
      ToStringParses(d);
    }
  }

  /** Decoding then printing: `toString` of any decoded value stays inside
      the buffer, prints one token per stored group (at least one), and,
      corrected, the text reads back as the decoded sign and groups. */
  lemma DecodedText(v: Variant, from: seq<JByte>, precision: Int32, scale: Int32)
    requires Admissible(from, precision, scale) && precision < TWO31 - 8
    ensures Decode(v, from, precision, scale).Success? ==>
      var d := Decode(v, from, precision, scale).value.dec;
      && Last(d) < |d.buf|
      && |Printed(d)| == (if RoundUp(d.intg) + RoundUp(d.frac) > 0 then RoundUp(d.intg) + RoundUp(d.frac) else 1)
      && (v == Corrected ==> ParseText(ToString(d)) == (!HighBitSet(from[0]), Printed(d)))
  {
    DecodeShape(v, from, precision, scale);
    if Decode(v, from, precision, scale).Success? {
      WellFormedText(Decode(v, from, precision, scale).value.dec, v == Corrected);
    }
  }
}
