# Packed MySQL decimals: a verified model of `Decimal.java`

`cdc.mysql.Decimal` is a Java port of MySQL's `bin2decimal` and
`decimal_bin_size` (from `strings/decimal.c`). A MySQL `DECIMAL(precision,
scale)` column is stored as groups of nine decimal digits, four bytes each, most
significant first. The digits left over on either side of the point are stored
in the fewest bytes that hold them (`dig2bytes`). A negative value is stored with
every group complemented, and bit 7 of the first byte is a sign flag that is set
for a non-negative value. `binToDecimal` reverses this packing into a `Decimal`:
a sign, the digit counts `intg` and `frac`, and a nine-slot buffer of base-10^9
groups. On the way it:

- clamps the groups to what the buffer holds (`FIX_INTG_FRAC_ERROR`);
- elides leading zero integer groups;
- rejects out-of-range groups with `E_DEC_BAD_NUM`.

`toString` prints the groups as `%09d` tokens separated by `.`.

The model is in eight modules:

| file | module | contents |
|---|---|---|
| `java_int.dfy` | `JavaInt` | Java `int`/`byte` as subset types; `& 0xff`, `^ 0x80`, `^ mask`, truncating `/ 9` and 32-bit wrap-around as exact arithmetic |
| `byte_order.dfy` | `ByteOrder` | `mi_sint1korr` … `mi_sint4korr`, characterised against two independent readings of a byte window (unsigned big-endian and two's complement), and the `Store` writers that invert them |
| `layout.dfy` | `Layout` | the constants, `roundUp`, `decimalBinSize`, and the fix-up that yields the *plan*: what is skipped, and which groups are read at which offsets |
| `decimal.dfy` | `DecimalCodec` | `Decode` (declarative, group by group) and `BinToDecimal` (the Java loops, with their running offset and buffer index), proved equal |
| `decode_facts.dfy` | `DecodeFacts` | the shape of every result: status, sign, digit counts, well-formedness, elision, failure exactly on a bad group |
| `format.dfy` | `Format` | `toString`, its loop, and an independent parser that reads the text back |
| `packing.dfy` | `Packing` | a reference encoder (`decimal2bin`) and the round trip through the corrected decoder |
| `findings.dfy` | `Findings` | three inputs the code as written misdecodes: two where it departs from the C decoder it ports, one where it inherits the C's overflow |

`Variant` parameterises the decoder:

- `AsWritten` is the Java, quirks included:
  - the 1- and 2-byte readers do not sign-extend;
  - the range checks are signed `int` comparisons;
  - the trailing-group multiplication wraps.
- `Corrected` is the behaviour the port evidently intends (see "## Findings"):
  - the signed readings of the C macros `mi_sint1korr` and `mi_sint2korr`;
  - the C's unsigned (`uint32`) range checks;
  - the exact product for the trailing group. This one is a fix, not the C's
    behaviour: the C computes the same product in `int32` and wraps the same
    way.

Other behaviours the model keeps from the Java:

- The caller's `from[0]` is left with its sign flag toggled, whether the decode
  succeeds or fails.
- The status the Java computes and then drops is returned next to the value.
- `E_DEC_BAD_NUM`, which the Java throws, is the failure `BadNum`.
- The sign mask always comes from `from[0]`, even when an overflowing column
  starts reading at a skipped offset.

The layout size is only non-decreasing in the precision, not strictly
increasing: `DECIMAL(2,1)` and `DECIMAL(3,1)` both take two bytes
(`Layout.DecimalBinSizeNotStrict`). Decoded groups lie in `[0, 10^9)` only for
the `Corrected` decoder; as written, negative and wrapped groups get through.

## Model

| member | source | states |
|---|---|---|
| JavaInt.Wrap32 | src/cdc/mysql/Decimal.java:98-103 | an `int` result equals the exact result modulo 2^32 and is the exact result when that fits |
| JavaInt.UByte | src/cdc/mysql/Decimal.java:74-77 | `ubyte` is the unsigned octet in [0,256) with the byte's bit pattern, at least 128 exactly when the byte is negative |
| JavaInt.FlipHighBit | src/cdc/mysql/Decimal.java:153 | `from[0] ^= 0x80` adds 128 modulo 256 to the octet and toggles the sign flag |
| JavaInt.XorMask | src/cdc/mysql/Decimal.java:203 | `x ^ mask` is `x` for mask 0 and the complement `-x - 1` for mask -1 |
| JavaInt.JavaDiv9 | src/cdc/mysql/Decimal.java:116 | Java's `/ 9` truncates toward zero, for negative operands too |
| ByteOrder.HighBitIsTopBit | src/cdc/mysql/Decimal.java:88 | bit 7 of the first byte is set exactly when the big-endian number is in the upper half of its width's range |
| ByteOrder.TwosComplementRange | src/cdc/mysql/Decimal.java:88-95 | a two's complement reading lies in its width's signed range and is negative exactly when the first byte's bit 7 is set |
| ByteOrder.Sint1 | src/cdc/mysql/Decimal.java:79-81 | `mi_sint1korr` as ported is the unsigned big-endian reading of one byte, in [0,255] |
| ByteOrder.Sint2 | src/cdc/mysql/Decimal.java:83-85 | `mi_sint2korr` as ported is the unsigned big-endian reading of two bytes, in [0,65535] |
| ByteOrder.Sint3 | src/cdc/mysql/Decimal.java:87-96 | `mi_sint3korr` is the two's complement reading of three bytes: negative in [-2^24,0) exactly when bit 7 of the first byte is set, else in [0,2^24) |
| ByteOrder.Sint4 | src/cdc/mysql/Decimal.java:98-103 | `mi_sint4korr` is the raw 32-bit pattern read as a signed `int`: the two's complement reading of four bytes |
| ByteOrder.Sint1Signed | src/cdc/mysql/Decimal.java:79-81 | the C macro `mi_sint1korr` is the two's complement reading of one byte |
| ByteOrder.Sint2Signed | src/cdc/mysql/Decimal.java:83-85 | the C macro `mi_sint2korr` is the two's complement reading of two bytes |
| ByteOrder.ReadInt | src/cdc/mysql/Decimal.java:193-199 | the reader picked for a width: as written the 1- and 2-byte readings are unsigned and the 3- and 4-byte readings signed; corrected, all are signed |
| ByteOrder.StoreUnsignedValue | src/cdc/mysql/Decimal.java:70-72 | storing a number high byte first and reading it back unsigned gives the number |
| ByteOrder.Store | src/cdc/mysql/Decimal.java:70-72 | a signed number stored in `w` bytes reads back as itself, with bit 7 of the first byte set exactly when it is negative |
| ByteOrder.ReadStore | src/cdc/mysql/Decimal.java:193-199 | every reader that gives the two's complement reading inverts `Store` |
| Layout.Powers10IsPow10 | src/cdc/mysql/Decimal.java:47 | `powers10[n]` is 10^n |
| Layout.Dig2BytesIsMinimal | src/cdc/mysql/Decimal.java:45 | `dig2bytes[d]` is the least width whose signed range holds every `d`-digit magnitude and its complement |
| Layout.RoundUp | src/cdc/mysql/Decimal.java:105-108 | `roundUp(x)` is the least group count holding `x` digits (when `x + 8` does not wrap), and 0 for x in [-8,0] |
| Layout.DecimalBinSize | src/cdc/mysql/Decimal.java:113-122 | the layout size is four bytes per full group plus `dig2bytes` of the leftover digits, for each side of the point, and at least one byte |
| Layout.DigitBytes | src/cdc/mysql/Decimal.java:115-121 | the Java's quotient and subtraction are the Euclidean quotient and remainder by nine, so one side's bytes are `GroupBytes` |
| Layout.GroupBytesMonotone | src/cdc/mysql/Decimal.java:45 | more digits never take fewer bytes, because the `dig2bytes` table is non-decreasing |
| Layout.DecimalBinSizeMonotone | src/cdc/mysql/Decimal.java:113-122 | for a fixed scale the layout size does not decrease as the precision grows |
| Layout.DecimalBinSizeNotStrict | src/cdc/mysql/Decimal.java:45 | the layout size is not strictly increasing: (1,0) and (2,0), (7,0) and (9,0), (2,1) and (3,1) share sizes |
| Layout.LayoutOf | src/cdc/mysql/Decimal.java:129-131 | `intg0`, `intg0x`, `frac0`, `frac0x` split the integer and fraction digits into full groups and leftover digits |
| Layout.LayoutGroups | src/cdc/mysql/Decimal.java:132 | `intg1` and `frac1` are `roundUp` of the integer and fraction digit counts |
| Layout.FixUp | src/cdc/mysql/Decimal.java:158-186 | Overflow exactly when the integer groups exceed nine (skip `dig2bytes[intg0x] + 4*(intg0-9)` bytes, nine full groups, no fraction); Truncated exactly when only the fraction exceeds the buffer (9 - intg1 full fraction groups, no trailing group); otherwise every group; never more than nine groups |
| Layout.SlotAt | src/cdc/mysql/Decimal.java:188-253 | groups are read in the order leading integer, full integer, full fraction, trailing fraction; the integer ones come first |
| Layout.Width | src/cdc/mysql/Decimal.java:189 | every group is read from one to four bytes |
| Layout.OffsetsAreContiguous | src/cdc/mysql/Decimal.java:201 | the groups are read back to back: each starts where the previous one ends |
| Layout.ReadsStayInWindow | src/cdc/mysql/Decimal.java:144 | every byte read, after any skip, lies inside the layout size, and at least one group is read |
| Layout.PlanOf | src/cdc/mysql/Decimal.java:129-186 | the plan of a valid column reads inside the layout size and reads one to nine groups |
| DecimalCodec.EmptyBuf | src/cdc/mysql/Decimal.java:61-64 | a fresh `Decimal` has nine zero groups |
| DecimalCodec.SignMask | src/cdc/mysql/Decimal.java:139 | the mask is 0 when the sign flag of `from[0]` is set and -1 otherwise |
| DecimalCodec.SignStripped | src/cdc/mysql/Decimal.java:153 | the caller's array after the call differs from the input only in `from[0]`: its octet has 128 added modulo 256, which toggles the sign flag and keeps the other seven bits |
| DecimalCodec.GroupValue | src/cdc/mysql/Decimal.java:194-251 | a group's value is its unmasked reading. A trailing group is its unmasked reading times `powers10[9 - frac0x]`: always equal to that product modulo 2^32, and exactly the product when corrected or when the product fits in `int` |
| DecimalCodec.ZeroPrefix | src/cdc/mysql/Decimal.java:206-210 | the elided groups are exactly the leading run of zero integer groups: all zero, followed by a non-zero group or the end of the integer groups |
| DecimalCodec.BinToDecimal | src/cdc/mysql/Decimal.java:127-262 | the Java algorithm returns exactly `Decode`, and leaves the caller's bytes sign-stripped |
| DecimalCodec.BinToDecimalInPlace | src/cdc/mysql/Decimal.java:125-153 | on an array, `from[0]` is toggled in place and the result is decoded from the bytes on entry |
| DecimalCodec.DecodeGroups | src/cdc/mysql/Decimal.java:188-261 | the two reading phases followed by the result assembly produce `Assemble` of the values read |
| DecimalCodec.ColumnPlan | src/cdc/mysql/Decimal.java:129-186 | the Java's truncating divisions split the digits exactly as `LayoutOf`, and with the fix-up give exactly the plan of the column |
| DecimalCodec.FixUpSteps | src/cdc/mysql/Decimal.java:156-182 | the Java's in-place updates of `intg1`, `frac1`, `error`, the offset and the group counts compute exactly `FixUp` |
| DecimalCodec.ReadSlot | src/cdc/mysql/Decimal.java:192-203 | reading at the running offset gives the slot's declared value, which fits an `int` unless it is a corrected trailing group |
| DecimalCodec.ReadIntegerGroups | src/cdc/mysql/Decimal.java:188-227 | the integer phase either rejects a bad group or passes every integer group, with the elided zero run dropped and `intg` reduced by its digits |
| DecimalCodec.ReadLeadGroup | src/cdc/mysql/Decimal.java:188-211 | the leading group is checked against `powers10[intg0x+1]`, and elided when zero |
| DecimalCodec.StoreIntGroup | src/cdc/mysql/Decimal.java:205-210 | an integer group is stored unless nothing has been stored and it is zero; then `intg` drops by its digits |
| DecimalCodec.ReadFractionGroups | src/cdc/mysql/Decimal.java:229-254 | every fraction group is checked and stored, none elided |
| DecimalCodec.ReadTrailGroup | src/cdc/mysql/Decimal.java:237-254 | the trailing group is scaled by `powers10[9-frac0x]`, checked and stored |
| DecimalCodec.StoreGroup | src/cdc/mysql/Decimal.java:233-235 | a fraction group extends the stored run by one |
| DecimalCodec.AssembleAccepts | src/cdc/mysql/Decimal.java:184-186 | when every group passes, the sign, digit counts and buffer the loops leave are the assembled value |
| DecimalCodec.ElideStep | src/cdc/mysql/Decimal.java:223-226 | one more integer group keeps the stored run and the dropped digit count in step |
| DecodeFacts.ElidedRoundUp | src/cdc/mysql/Decimal.java:210 | after elision, `roundUp(intg)` is the number of integer groups kept |
| DecodeFacts.AssembleShape | src/cdc/mysql/Decimal.java:184-256 | failure exactly when a group fails its check; a success is well formed, has the mask's sign and the plan's status and fraction, no leading zero group, and (corrected) only base-10^9 groups |
| DecodeFacts.AcceptedLead | src/cdc/mysql/Decimal.java:206-208 | an accepted result with integer digits starts with a non-zero group |
| DecodeFacts.AcceptedDigits | src/cdc/mysql/Decimal.java:221 | corrected, every stored group is a base-10^9 digit |
| DecodeFacts.AssembleKeeps | src/cdc/mysql/Decimal.java:205-236 | a success stores every group after the zero run, in order, with zeros after, and `intg` loses exactly the elided digits |
| DecodeFacts.ReadKeeps | src/cdc/mysql/Decimal.java:192-236 | the same for the values read from a byte window |
| DecodeFacts.DecodeKeeps | src/cdc/mysql/Decimal.java:205-236 | a successful decode elides exactly the leading zero integer groups read, stores every later group (every fraction group) in order, and reduces `intg` by the elided digits |
| DecodeFacts.DecodeFailsIff | src/cdc/mysql/Decimal.java:204-252 | the decode fails with `BadNum` if and only if some group, read and unmasked, fails its range check |
| DecodeFacts.DecodeShape | src/cdc/mysql/Decimal.java:139-186 | sign is true exactly when bit 7 of `from[0]` was clear; status Overflow/Truncated/Exact exactly by the group counts against nine; the fraction digits per status; `intg` never grows; well formed, no leading zero group; corrected, base-10^9 groups |
| Format.Format09 | src/cdc/mysql/Decimal.java:273 | `%09d` starts with `-` exactly for a negative number, and prints a base-10^9 digit as exactly nine digits |
| Format.Format09Value | src/cdc/mysql/Decimal.java:273 | the nine digits of a base-10^9 digit denote it |
| Format.FormatDecimal | src/cdc/mysql/Decimal.java:264-279 | the Java loop builds the sign then the tokens of `buf[0..end]` joined by `.` |
| Format.ParseJoined | src/cdc/mysql/Decimal.java:271-276 | parsing the joined tokens of base-10^9 groups gives the groups back |
| Format.ToStringParses | src/cdc/mysql/Decimal.java:264-279 | reading the text back gives the sign and `buf[0..end]`; the text is one nine-digit token per group with `.` between |
| Format.ToStringSign | src/cdc/mysql/Decimal.java:268 | the text starts with `-` exactly when the sign is set or the first group is negative |
| Format.ZeroText | src/cdc/mysql/Decimal.java:270-276 | with `intg = frac = 0` only `buf[0]` is printed: "000000000" |
| Format.WellFormedText | src/cdc/mysql/Decimal.java:270-276 | a well-formed value prints inside its buffer, one token per stored group (at least one), and reads back when its groups are digits |
| Format.DecodedText | src/cdc/mysql/Decimal.java:127-279 | any decoded value prints without leaving the buffer, and, corrected, the text reads back as the decoded sign and groups |
| Packing.ExactPlan | src/cdc/mysql/Decimal.java:167-169 | a column whose groups fit the buffer is read from offset 0, Exact, every digit kept, to the end of its layout size |
| Packing.PackMask | src/cdc/mysql/Decimal.java:139 | a negative value is packed complemented |
| Packing.PackedFits | src/cdc/mysql/Decimal.java:45 | a magnitude fitting its group, complemented or not, fits the group's bytes as a signed number |
| Packing.BodySlice | src/cdc/mysql/Decimal.java:213 | each group is read back from where it was packed |
| Packing.ReadImage | src/cdc/mysql/Decimal.java:251 | a packed group is read back, corrected, as its magnitude, a trailing group's digits moved to the high end |
| Packing.Encode | src/cdc/mysql/Decimal.java:144 | the packing of a value is exactly the column's layout size long |
| Packing.EncodeSign | src/cdc/mysql/Decimal.java:153 | the sign flag of a packing gives back the packed sign, and stripping it gives the packed groups |
| Packing.GroupRoundTrip | src/cdc/mysql/Decimal.java:188-253 | every group of a packing is read back, corrected, as its expected value |
| Packing.BodyRoundTrip | src/cdc/mysql/Decimal.java:192-203 | the same, for the groups before the sign flag is set |
| Packing.ExpectedOk | src/cdc/mysql/Decimal.java:204-252 | every packed group passes the corrected range checks |
| Packing.SlotOk | src/cdc/mysql/Decimal.java:204 | a fitting magnitude passes the corrected check for its group |
| Packing.TrailOk | src/cdc/mysql/Decimal.java:251-252 | a trailing group's digits moved to the high end stay below 10^9 |
| Packing.EncodeDecode | src/cdc/mysql/Decimal.java:127-262 | corrected, decoding a packing succeeds, Exact, with the packed sign, all fraction digits, and exactly the packed groups after the leading zero run |
| Packing.EncodeDecodeAsWritten | src/cdc/mysql/Decimal.java:127-262 | on the packing of a non-negative value the decoder as written returns exactly what the corrected one does, so such values round-trip as written too |
| Packing.AssembleAgrees | src/cdc/mysql/Decimal.java:203-254 | on non-negative group values the signed and unsigned range checks agree, so both variants assemble the same result |
| Packing.BodyReadsAgree | src/cdc/mysql/Decimal.java:192-251 | every group of a non-negative packing reads the same both ways, and none is negative |
| Packing.BodyAsWritten | src/cdc/mysql/Decimal.java:192-251 | the same, for one group |
| Packing.ReadStoredBoth | src/cdc/mysql/Decimal.java:79-104 | the image of a non-negative number has a clear top bit, so the unsigned 1- and 2-byte readers read it as the signed ones do |
| Packing.GroupValueAgrees | src/cdc/mysql/Decimal.java:251 | a non-negative trailing magnitude that fits its group scales below 10^9 in both variants, so the `int` product does not wrap |
| Findings.MinusOnePacks | src/cdc/mysql/Decimal.java:139-153 | -1 in `DECIMAL(1,0)` packs as the single byte 0x7E |
| Findings.MinusOneShaped | src/cdc/mysql/Decimal.java:139-153 | in every exact column with one one-digit integer group, -1 packs as the single byte 0x7E |
| Findings.UnsignedShortReadFinding | src/cdc/mysql/Decimal.java:79-81 | bytes starting 0x7E in `DECIMAL(1,0)` decode as written to the group -255, and corrected to the packed group 1 |
| Findings.LeadReads | src/cdc/mysql/Decimal.java:194 | the stripped byte 0xFE of a negative value unmasks to -255 as written and to 1 corrected |
| Findings.AssembleLead | src/cdc/mysql/Decimal.java:203-208 | both leading values pass their check and are stored |
| Findings.Decimal10Witness | src/cdc/mysql/Decimal.java:113-122 | `DECIMAL(1,0)` has the one-digit shape and the byte 0x7E is a whole input |
| Findings.SignedCheckFinding | src/cdc/mysql/Decimal.java:219-221 | bytes 80 00 00 00 80 00 00 00 in `DECIMAL(18,0)` decode as written to the group -2^31, and fail corrected |
| Findings.TopBitReads | src/cdc/mysql/Decimal.java:218-219 | those bytes read as the groups 0 and -2^31 |
| Findings.AssembleTopBit | src/cdc/mysql/Decimal.java:221-226 | the zero group is elided, and -2^31 passes the signed check but not the unsigned one |
| Findings.Decimal180Witness | src/cdc/mysql/Decimal.java:113-122 | `DECIMAL(18,0)` has the two-group shape and the eight bytes are a whole input |
| Findings.TrailWrapFinding | src/cdc/mysql/Decimal.java:251-252 | the byte 0xAB in `DECIMAL(1,1)` decodes as written to the group 5032704, and fails corrected |
| Findings.TrailReads | src/cdc/mysql/Decimal.java:251 | the group 43 scales to 4300000000, which wraps in `int` to 5032704 |
| Findings.AssembleTrail | src/cdc/mysql/Decimal.java:252-253 | the wrapped value passes the check, the exact product does not |
| Findings.Decimal11Witness | src/cdc/mysql/Decimal.java:113-122 | `DECIMAL(1,1)` has the one-fraction-digit shape and the byte 0xAB is a whole input |

## Left out

- `src/cdc/JdbcClient.java` is not part of this model. It is a JDBC demonstration with no decoding logic of its own.
- The unused constants and imports (`DIG_MASK`, `DIG_BASE2`, the `E_DEC_*` codes other than the three statuses and `BadNum`, `ByteBuffer`, `ByteOrder`) are not modelled. They do not affect any result.
- The exception messages are not modelled. Every `E_DEC_BAD_NUM` throw is the single failure `BadNum`.
- The `default: throwf(...)` branches of the two width switches are not modelled, because `Layout.Width` proves every group is one to four bytes wide.
- The `len` field is not a separate field. It is always `DECIMAL_BUFF_LENGTH`, which the model uses directly.
- Bit operations are written as arithmetic on `int` values, with no bit-level definition to check them against. Only the byte readers (`ByteOrder.Sint1` to `ByteOrder.Sint4`, `ByteOrder.ReadInt`) are proved against the independent `BigEndian` and `TwosComplement` readings.
- JavaInt.XorMask: `x ^ -1` is taken to be `-1 - x` by definition. The identity rests on two's complement and is not proved.
- JavaInt.HighBitSet: `(b & 0x80) != 0` is taken to be `b < 0` by definition. `JavaInt.UByte` ties this to the octet being at least 128, but no bitwise AND is modelled to prove it against.
- DecimalCodec.Decode: requires a valid column (`precision > 0`, `0 <= scale <= precision`), as the commented assertion in `decimalBinSize` demands of callers.
- DecimalCodec.Decode: requires a byte window at least as long as the layout size. With a shorter array, the Java reads zero padding from `Arrays.copyOfRange`, or throws.
- DecodeFacts.DecodeShape: states its status and digit-count facts only for `precision < 2^31 - 8`, where `roundUp`'s `x + 8` does not wrap.
- Format.ToString: requires `roundUp(frac) + roundUp(intg) - 1` to index the buffer. Otherwise the Java throws `ArrayIndexOutOfBoundsException`, which the model does not represent.
- Format.Format09: models `String.format("%09d", n)` as sign, zero padding and digits. Locale-specific digits and the rest of `String.format` are not modelled.
- Packing.Encode: the reference encoder covers only columns whose groups all fit the nine-group buffer (`Exact`). The round trip says nothing about truncated or overflowing columns.
- The three findings are stated for one small column each and every input starting with the bytes shown, not for every column where the same misreading happens.

## Findings

| source | as written | input that shows it | evidently intended | confidence | as-written member | corrected member |
|---|---|---|---|---|---|---|
| src/cdc/mysql/Decimal.java:79-85 | `mi_sint1korr` and `mi_sint2korr` return the unsigned value of their bytes, so a short group of a negative value is unmasked from the wrong number. Non-negative values are unaffected: they round-trip as written (`Packing.EncodeDecodeAsWritten`) | `DECIMAL(1,0)`, bytes `7E` (the packing of -1): decodes to sign true, group -255 | the signed readings of the C macros: sign true, group 1, that is -1 | not executed | Findings.UnsignedShortReadFinding | Packing.EncodeDecode |
| src/cdc/mysql/Decimal.java:221 | the range checks compare signed `int`s, so a group whose top bit is set passes as a negative number | `DECIMAL(18,0)`, bytes `80 00 00 00 80 00 00 00`: decodes to the group -2^31 | the unsigned comparison of the C (`(uint32)*buf > DIG_MAX`): `E_DEC_BAD_NUM` | not executed | Findings.SignedCheckFinding | DecodeFacts.DecodeShape |
| src/cdc/mysql/Decimal.java:251 | the trailing group is scaled in `int`, so an out-of-range trailing group can wrap back into range | `DECIMAL(1,1)`, byte `AB`: the group 43 times 10^8 wraps to 5032704, which is accepted | the exact product 4300000000 fails the check: `E_DEC_BAD_NUM`. The C's `*buf = (x ^ mask) * powers10[...]` is the same 32-bit product, so the port inherits the wrap; the exact product is the evident intent of the range check that follows | not executed | Findings.TrailWrapFinding | DecodeFacts.DecodeFailsIff |
