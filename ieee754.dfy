/** The IEEE-754 bit-field splitter: a packed 32- or 64-bit pattern becomes a
    zero-padded binary string, which is cut into sign, exponent and mantissa
    fields (IEEE 754-2008, section 3.4: 1/8/23 bits for binary32, 1/11/52
    bits for binary64) and parsed back with base 2 to rebuild the pattern.
    Packing a float into its pattern and unpacking a pattern into a float are
    done by the host's struct library and are not part of this model: a
    parsed number is represented by the patterns that packing yields. */
module Ieee754 {
  import opened Common

  function Pow2(k: nat): (r: nat)
    ensures r >= 1
  {
    if k == 0 then 1 else 2 * Pow2(k - 1)
  }

  predicate IsBitString(s: string)
  {
    forall i :: 0 <= i < |s| ==> s[i] == '0' || s[i] == '1'
  }

  /** `int(s, 2)` on a string of binary digits, most significant first. */
  function ParseBinary(s: string): (v: nat)
    requires IsBitString(s)
    ensures v < Pow2(|s|)
  {
    if s == [] then 0
    else 2 * ParseBinary(s[..|s| - 1]) + (if s[|s| - 1] == '1' then 1 else 0)
  }

  /** `format(v, '0wb')`: v in binary, most significant digit first,
      zero-padded on the left to exactly w digits. */
  function FormatBinary(v: nat, w: nat): (s: string)
    requires v < Pow2(w)
    ensures |s| == w && IsBitString(s)
    ensures ParseBinary(s) == v
  {
    if w == 0 then ""
    else
      var high := FormatBinary(v / 2, w - 1);
      var s := high + [if v % 2 == 0 then '0' else '1'];
      assert s[..|s| - 1] == high;
      s
  }

  /** Formatting is also a left inverse of parsing: a w-digit bit string is
      rebuilt exactly from its value. */
  lemma {:induction false} FormatParseRoundTrip(s: string)
    requires IsBitString(s)
    ensures FormatBinary(ParseBinary(s), |s|) == s
  {
    if s != [] {
      var init := s[..|s| - 1];
      FormatParseRoundTrip(init);
      var v := ParseBinary(s);
      assert v / 2 == ParseBinary(init);
      assert s == init + [s[|s| - 1]];
    }
  }

  /** The leading digit of a w-digit pattern is '1' exactly when the pattern
      is at least 2^(w-1). */
  lemma {:induction false} LeadingBitIsHighBit(s: string)
    requires IsBitString(s) && |s| >= 1
    ensures s[0] == '1' <==> ParseBinary(s) >= Pow2(|s| - 1)
  {
    if |s| > 1 {
      var init := s[..|s| - 1];
      LeadingBitIsHighBit(init);
      assert init[0] == s[0];
    }
  }

  /** The binary64 pattern of 2^128 - 2^103, halfway between the largest
      binary32 value and 2^128, with the sign bit clear. */
  const SingleOverflowFrom: nat := 0x47EF_FFFF_F000_0000

  /** The binary64 pattern of +infinity. */
  const DoubleInfinity: nat := 0x7FF0_0000_0000_0000

  /** Rounding a double to the nearest binary32 (ties to even) overflows
      exactly for finite magnitudes of at least 2^128 - 2^103: packing such
      a number as a binary32 raises OverflowError. Infinities and NaNs
      pack. The sign bit is ignored. */
  predicate SingleOverflows(bits64: nat)
  {
    var magnitude := bits64 % 0x8000_0000_0000_0000;
    SingleOverflowFrom <= magnitude < DoubleInfinity
  }

  /** A parsed number, represented by the outcome of packing it as a
      big-endian binary32 (None when that overflows) and by its big-endian
      binary64 pattern, which always exists. */
  datatype PackedFloat = PackedFloat(bits32: Option<nat>, bits64: nat)

  predicate ValidPacked(p: PackedFloat)
  {
    && p.bits64 < Pow2(64)
    && (p.bits32.None? <==> SingleOverflows(p.bits64))
    && (p.bits32.Some? ==> p.bits32.value < Pow2(32))
  }

  /** Why `get_float_details` yields no details: the text is not a number
      (it returns None), or the number is finite but beyond the binary32
      range, so packing it as a binary32 raises OverflowError. */
  datatype DetailsError = NotANumber | SingleOverflow

  /** `get_binary`: the precision tag selects the width; any tag other than
      "single" and "double" yields the empty string. Only the binary32
      packing can fail. */
  function GetBinary(num: PackedFloat, precision: string): (r: Result<string, DetailsError>)
    requires ValidPacked(num)
    ensures r.Err? <==> precision == "single" && SingleOverflows(num.bits64)
    ensures r.Err? ==> r.error == SingleOverflow
    ensures precision == "single" && r.Ok? ==>
      |r.value| == 32 && IsBitString(r.value) && ParseBinary(r.value) == num.bits32.value
    ensures precision == "double" ==>
      r.Ok? && |r.value| == 64 && IsBitString(r.value) && ParseBinary(r.value) == num.bits64
    ensures precision != "single" && precision != "double" ==> r == Ok("")
  {
    if precision == "single" then
      match num.bits32
      case None => Err(SingleOverflow)
      case Some(bits) => Ok(FormatBinary(bits, 32))
    else if precision == "double" then Ok(FormatBinary(num.bits64, 64))
    else Ok("")
  }

  /** The largest binary32 value packs; the halfway point to 2^128 and every
      larger finite double overflow; infinity packs; the sign does not
      matter. */
  lemma SingleOverflowBoundary(bits64: nat)
    requires bits64 < 0x8000_0000_0000_0000
    ensures !SingleOverflows(0x47EF_FFFF_E000_0000)
    ensures SingleOverflows(SingleOverflowFrom)
    ensures !SingleOverflows(DoubleInfinity)
    ensures SingleOverflows(bits64) <==> SingleOverflows(bits64 + 0x8000_0000_0000_0000)
  {
  }

  /** One precision's row of the report. `reconstructed` is the pattern that
      the parse-back hands to the unpacking step. */
  datatype FloatFields = FloatFields(sign: string, exponent: string, mantissa: string, reconstructed: nat)

  datatype FloatDetails = FloatDetails(single: FloatFields, double: FloatFields)

  /** Cuts a binary string after the sign digit and after the exponent field,
      and parses the whole string back with base 2. */
  function SplitFields(bin: string, exponentEnd: nat): FloatFields
    requires IsBitString(bin) && 1 <= exponentEnd <= |bin|
  {
    FloatFields(bin[..1], bin[1..exponentEnd], bin[exponentEnd..], ParseBinary(bin))
  }

  /** The field layout of one precision: widths, concatenation back to the
      full pattern, the round trip of the parse-back, and the sign digit. */
  predicate FieldsOf(r: FloatFields, bits: nat, width: nat, exponentBits: nat)
    requires width >= 1 && bits < Pow2(width)
  {
    && |r.sign| == 1
    && |r.exponent| == exponentBits
    && |r.mantissa| == width - 1 - exponentBits
    && r.sign + r.exponent + r.mantissa == FormatBinary(bits, width)
    && r.reconstructed == bits
    && (r.sign == "1" <==> bits >= Pow2(width - 1))
  }

  /** Cutting the w-digit pattern after digit 1 and after digit exponentEnd
      gives the field layout FieldsOf describes. */
  lemma SplitFieldsLayout(bits: nat, width: nat, exponentEnd: nat)
    requires 1 <= exponentEnd <= width && bits < Pow2(width)
    ensures FieldsOf(SplitFields(FormatBinary(bits, width), exponentEnd), bits, width, exponentEnd - 1)
  {
    var bin := FormatBinary(bits, width);
    var r := SplitFields(bin, exponentEnd);
    LeadingBitIsHighBit(bin);
    assert r.sign + r.exponent + r.mantissa == bin;
    assert r.sign == "1" <==> bin[0] == '1';
  }

  /** The binary32 row: 1 sign, 8 exponent and 23 mantissa digits. */
  lemma SingleLayout(num: PackedFloat)
    requires ValidPacked(num) && num.bits32.Some?
    ensures GetBinary(num, "single").Ok?
    ensures FieldsOf(SplitFields(GetBinary(num, "single").value, 9), num.bits32.value, 32, 8)
  {
    assert GetBinary(num, "single") == Ok(FormatBinary(num.bits32.value, 32));
    SplitFieldsLayout(num.bits32.value, 32, 9);
  }

  /** The binary64 row: 1 sign, 11 exponent and 52 mantissa digits. */
  lemma DoubleLayout(num: PackedFloat)
    requires ValidPacked(num)
    ensures GetBinary(num, "double").Ok?
    ensures FieldsOf(SplitFields(GetBinary(num, "double").value, 12), num.bits64, 64, 11)
  {
    assert GetBinary(num, "double") == Ok(FormatBinary(num.bits64, 64));
    SplitFieldsLayout(num.bits64, 64, 12);
  }

  /** `get_float_details`: input that did not parse yields NotANumber; a
      finite number beyond the binary32 range yields SingleOverflow (the
      exception escapes, and no report is written); otherwise the 1/8/23
      and 1/11/52 field split of both patterns. */
  function GetFloatDetails(parsed: Option<PackedFloat>): (r: Result<FloatDetails, DetailsError>)
    requires parsed.Some? ==> ValidPacked(parsed.value)
    ensures r.Err? <==> parsed.None? || SingleOverflows(parsed.value.bits64)
    ensures r.Err? ==> (r.error == NotANumber <==> parsed.None?)
    ensures r.Ok? ==> FieldsOf(r.value.single, parsed.value.bits32.value, 32, 8)
    ensures r.Ok? ==> FieldsOf(r.value.double, parsed.value.bits64, 64, 11)
  {
    match parsed
    case None => Err(NotANumber)
    case Some(num) =>
      match GetBinary(num, "single")
      case Err(e) => Err(e)
      case Ok(bin32) =>
        SingleLayout(num);
        DoubleLayout(num);
        Ok(FloatDetails(SplitFields(bin32, 9), SplitFields(GetBinary(num, "double").value, 12)))
  }
}
