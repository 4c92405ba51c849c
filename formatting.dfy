/** How a group's hash and size are shown in the report: the hash as sixteen
    upper-case hexadecimal digits, the size as a byte count or, above 1024
    bytes, scaled to a binary unit. */
module Formatting {

  import opened Base

  predicate IsHexChar(c: char) {
    '0' <= c <= '9' || 'A' <= c <= 'F'
  }

  predicate IsDigit(c: char) {
    '0' <= c <= '9'
  }

  function HexChar(d: nat): (c: char)
    requires d < 16
    ensures IsHexChar(c)
  {
    if d < 10 then (48 + d) as char else (55 + d) as char
  }

  /** The value of a hexadecimal digit. */
  function HexValue(c: char): nat {
    if '0' <= c <= '9' then c as int - 48
    else if 'A' <= c <= 'F' then c as int - 55
    else 0
  }

  function Pow16(k: nat): nat {
    if k == 0 then 1 else 16 * Pow16(k - 1)
  }

  lemma {:induction false} Pow16Sum(a: nat, b: nat)
    ensures Pow16(a + b) == Pow16(a) * Pow16(b)
  {
    if b > 0 {
      Pow16Sum(a, b - 1);
    }
  }

  /** The last `k` hexadecimal digits of `n`, most significant first,
      padded with zeros. */
  function HexDigits(n: nat, k: nat): (r: string)
    ensures |r| == k
    ensures forall i :: 0 <= i < |r| ==> IsHexChar(r[i])
  {
    if k == 0 then [] else HexDigits(n / 16, k - 1) + [HexChar(n % 16)]
  }

  /** A hash as the report shows it: sixteen upper-case hexadecimal digits,
      zero-padded. */
  function Hex16(h: u64): (r: string)
    ensures |r| == 16
    ensures forall i :: 0 <= i < |r| ==> IsHexChar(r[i])
  {
    HexDigits(h, 16)
  }

  /** The number a string of hexadecimal digits denotes. */
  function ParseHex(s: string): nat {
    if s == [] then 0 else 16 * ParseHex(s[..|s| - 1]) + HexValue(s[|s| - 1])
  }

  lemma {:induction false} HexDigitsRoundTrip(n: nat, k: nat)
    requires n < Pow16(k)
    ensures ParseHex(HexDigits(n, k)) == n
  {
    if k > 0 {
      var s := HexDigits(n, k);
      HexDigitsRoundTrip(n / 16, k - 1);
      assert s[..|s| - 1] == HexDigits(n / 16, k - 1);
    }
  }

  /** The hexadecimal text of a hash reads back as the hash. */
  lemma Hex16RoundTrip(h: u64)
    ensures ParseHex(Hex16(h)) == h
  {
    Pow16Sum(2, 2);
    Pow16Sum(4, 4);
    Pow16Sum(8, 8);
    assert Pow16(16) == U64_LIMIT;
    HexDigitsRoundTrip(h, 16);
  }

  /** Different hashes are shown differently. */
  lemma Hex16Injective(a: u64, b: u64)
    requires Hex16(a) == Hex16(b)
    ensures a == b
  {
    Hex16RoundTrip(a);
    Hex16RoundTrip(b);
  }

  /** The decimal digits of `n`, most significant first, with no leading
      zero. */
  function Decimal(n: nat): (r: string)
    ensures |r| >= 1
    ensures forall i :: 0 <= i < |r| ==> IsDigit(r[i])
    ensures |r| > 1 ==> r[0] != '0'
  {
    if n < 10 then [(48 + n) as char] else Decimal(n / 10) + [(48 + n % 10) as char]
  }

  /** The number a string of decimal digits denotes. */
  function ParseDecimal(s: string): nat {
    if s == [] then 0 else 10 * ParseDecimal(s[..|s| - 1]) + (if IsDigit(s[|s| - 1]) then s[|s| - 1] as int - 48 else 0)
  }

  /** A decimal text reads back as its number. */
  lemma {:induction false} DecimalRoundTrip(n: nat)
    ensures ParseDecimal(Decimal(n)) == n
  {
    var s := Decimal(n);
    if n >= 10 {
      DecimalRoundTrip(n / 10);
      assert s[..|s| - 1] == Decimal(n / 10);
    } else {
      assert s[..0] == [];
    }
  }

  function Pow2(k: nat): (r: nat)
    ensures r >= 1
  {
    if k == 0 then 1 else 2 * Pow2(k - 1)
  }

  /** Integers below this are exactly representable as a 32-bit float. */
  const F32_EXACT: nat := 0x100_0000

  /** How many low bits of `n` a 32-bit float cannot hold. */
  function F32Shift(n: nat): nat {
    if n < F32_EXACT then 0 else 1 + F32Shift(n / 2)
  }

  /** `n` converted to a 32-bit float: the nearest number with at most 24
      significant bits, ties to the even one. */
  function RoundF32(n: nat): nat {
    var ulp := Pow2(F32Shift(n));
    var lo := n / ulp * ulp;
    var rem := n % ulp;
    if 2 * rem < ulp || (2 * rem == ulp && (n / ulp) % 2 == 0) then lo else lo + ulp
  }

  lemma {:induction false} F32ShiftBounds(n: nat)
    ensures n < F32_EXACT * Pow2(F32Shift(n))
    ensures n >= F32_EXACT ==> n >= F32_EXACT / 2 * Pow2(F32Shift(n))
  {
    if n >= F32_EXACT {
      F32ShiftBounds(n / 2);
    }
  }

  /** Below 2^24 the conversion is exact; from 2^24 on it stays above 1024. */
  lemma RoundF32Small(n: nat)
    ensures n < F32_EXACT ==> RoundF32(n) == n
    ensures n >= F32_EXACT ==> RoundF32(n) > 1024
  {
    if n < F32_EXACT {
      assert Pow2(F32Shift(n)) == 1;
    } else {
      F32ShiftBounds(n);
      RoundedDownLarge(n, Pow2(F32Shift(n)));
    }
  }

  /** Rounding `n` down to a multiple of `u` keeps it above 1024 when `n`
      is at least 2^23 times `u`. */
  lemma RoundedDownLarge(n: nat, u: nat)
    requires u >= 1 && n >= 0x80_0000 * u
    ensures n / u * u > 1024
  {
    var q, r := n / u, n % u;
    assert n == q * u + r && r < u;
  }

  const KIB: nat := 1024

  /** The binary units a size above 1024 bytes is scaled to. */
  datatype Unit = KB | MB | GB | TB

  /** The power of 1024 a unit stands for. */
  function Scale(u: Unit): nat {
    match u
    case KB => KIB
    case MB => KIB * KIB
    case GB => KIB * KIB * KIB
    case TB => KIB * KIB * KIB * KIB
  }

  /** A size label: the byte count followed by "B", or a size scaled to a
      unit, standing for `rounded / Scale(unit)`, where `rounded` is the size
      converted to a 32-bit float. */
  datatype SizeLabel = Bytes(text: string) | Scaled(rounded: nat, unit: Unit)

  /** The label of a size, choosing the unit as the conversion to a 32-bit
      float, divided by 1024 again and again, exceeds 1024. */
  function HumanReadableSize(size: u64): (r: SizeLabel)
    ensures r.Bytes? <==> size <= 1024
    ensures r.Bytes? ==> r.text == Decimal(size) + "B"
    ensures r.Scaled? ==> r.rounded == RoundF32(size) && r.rounded > Scale(r.unit)
    ensures r.Scaled? && r.unit != TB ==> r.rounded <= KIB * Scale(r.unit)
  {
    RoundF32Small(size);
    var f := RoundF32(size);
    if f > KIB then
      if f > KIB * KIB then
        if f > KIB * KIB * KIB then
          if f > KIB * KIB * KIB * KIB then Scaled(f, TB) else Scaled(f, GB)
        else Scaled(f, MB)
      else Scaled(f, KB)
    else Bytes(Decimal(size) + "B")
  }

  /** Exactly 1024 bytes is still shown as bytes. */
  lemma KibibyteShownInBytes()
    ensures HumanReadableSize(1024) == Bytes("1024B")
  {
    assert Decimal(1024) == "1024";
  }

  /** One byte past 1024 is shown in kilobytes. */
  lemma JustOverKibibyteInKilobytes()
    ensures HumanReadableSize(1025) == Scaled(1025, KB)
  {
    RoundF32Small(1025);
  }

  /** Exactly 1024 * 1024 bytes is still shown in kilobytes. */
  lemma MebibyteShownInKilobytes()
    ensures HumanReadableSize(0x10_0000) == Scaled(0x10_0000, KB)
  {
    RoundF32Small(0x10_0000);
  }

  /** Sizes below 2^24 choose their unit from the exact size. */
  lemma UnitOfSmallSize(size: u64)
    requires 1024 < size < F32_EXACT
    ensures HumanReadableSize(size) == if size > KIB * KIB then Scaled(size, MB) else Scaled(size, KB)
  {
    RoundF32Small(size);
  }

  /** One byte past 2^30 rounds down to 2^30 as a 32-bit float, so it is
      shown in megabytes, not gigabytes. */
  lemma GibibytePlusOneInMegabytes()
    ensures HumanReadableSize(0x4000_0001) == Scaled(0x4000_0000, MB)
  {
    assert F32Shift(0x40_0000) == 0;
    assert F32Shift(0x4000_0001) == 7;
    assert Pow2(7) == 128;
  }
}
