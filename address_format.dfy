/**
  Address formatting: the "0x{0:X<2*pointerSize>}" pattern that
  MemorySnapshotCacheData caches in x16FormatCache, and what string.Format
  makes of an address with it (upper-case hexadecimal, left-padded with
  zeros to at least 2*pointerSize digits).
 */
module AddressFormat {
  import opened Words

  const HEX_DIGITS: string := "0123456789ABCDEF"

  predicate IsHexDigit(c: char) {
    '0' <= c <= '9' || 'A' <= c <= 'F'
  }

  predicate AllHexDigits(s: string) {
    forall i :: 0 <= i < |s| ==> IsHexDigit(s[i])
  }

  function DigitChar(d: nat): (c: char)
    requires d < 16
    ensures IsHexDigit(c)
  {
    HEX_DIGITS[d]
  }

  function DigitValue(c: char): (d: nat)
    requires IsHexDigit(c)
    ensures d < 16
  {
    if '0' <= c <= '9' then (c - '0') as nat else (c - 'A') as nat + 10
  }

  lemma DigitRoundTrip(d: nat)
    requires d < 16
    ensures DigitValue(DigitChar(d)) == d
  {
  }

  function Pow16(n: nat): (p: nat)
    ensures p >= 1
  {
    if n == 0 then 1 else 16 * Pow16(n - 1)
  }

  /** The value of a string of hexadecimal digits, most significant first. */
  function HexValue(s: string): (v: nat)
    requires AllHexDigits(s)
    ensures v < Pow16(|s|)
  {
    if s == [] then 0
    else
      var high := HexValue(s[..|s| - 1]);
      assert 16 * high <= 16 * Pow16(|s| - 1) - 16;
      16 * high + DigitValue(s[|s| - 1])
  }

  /** The shortest upper-case hexadecimal spelling of `v` ("0" for zero), as format "X" writes it. */
  function Hex(v: nat): (s: string)
    ensures 1 <= |s| && AllHexDigits(s)
    ensures v < Pow16(|s|)
    ensures |s| > 1 ==> Pow16(|s| - 1) <= v
  {
    if v < 16 then [DigitChar(v)]
    else
      var high := Hex(v / 16);
      assert 16 * (v / 16) <= v < 16 * (v / 16) + 16;
      high + [DigitChar(v % 16)]
  }

  function Zeros(n: nat): (s: string)
    ensures |s| == n && AllHexDigits(s)
    ensures forall i :: 0 <= i < n ==> s[i] == '0'
  {
    if n == 0 then "" else Zeros(n - 1) + "0"
  }

  /** Format "X<width>": the hexadecimal digits of `v` left-padded with zeros to `width`. */
  function PaddedHex(v: nat, width: nat): (s: string)
    ensures AllHexDigits(s)
    ensures |s| == if |Hex(v)| < width then width else |Hex(v)|
    ensures forall i :: 0 <= i < |s| - |Hex(v)| ==> s[i] == '0'
  {
    var digits := Hex(v);
    var pad := Zeros(if |digits| < width then width - |digits| else 0);
    pad + digits
  }

  lemma {:induction false} HexRoundTrip(v: nat)
    ensures HexValue(Hex(v)) == v
  {
    if v >= 16 {
      var s := Hex(v);
      assert s[..|s| - 1] == Hex(v / 16);
      HexRoundTrip(v / 16);
      DigitRoundTrip(v % 16);
    } else {
      DigitRoundTrip(v);
    }
  }

  lemma {:induction false} LeadingZerosAddNothing(n: nat, s: string)
    requires AllHexDigits(s)
    ensures HexValue(Zeros(n) + s) == HexValue(s)
  {
    if s == [] {
      assert Zeros(n) + s == Zeros(n);
      if n > 0 {
        assert Zeros(n)[..n - 1] == Zeros(n - 1);
        LeadingZerosAddNothing(n - 1, s);
        assert Zeros(n - 1) + s == Zeros(n - 1);
      }
    } else {
      var t := Zeros(n) + s;
      assert t[..|t| - 1] == Zeros(n) + s[..|s| - 1];
      assert t[|t| - 1] == s[|s| - 1];
      LeadingZerosAddNothing(n, s[..|s| - 1]);
    }
  }

  /** Reading the padded digits back gives the address: formatting loses nothing. */
  lemma PaddedHexRoundTrip(v: nat, width: nat)
    ensures HexValue(PaddedHex(v, width)) == v
  {
    var digits := Hex(v);
    HexRoundTrip(v);
    LeadingZerosAddNothing(if |digits| < width then width - |digits| else 0, digits);
  }

  lemma {:induction false} Pow256IsPow16(n: nat)
    ensures Pow256(n) == Pow16(2 * n)
  {
    if n > 0 {
      Pow256IsPow16(n - 1);
      assert Pow16(2 * n) == 16 * 16 * Pow16(2 * (n - 1));
    }
  }

  lemma {:induction false} Pow16Monotone(a: nat, b: nat)
    requires a <= b
    ensures Pow16(a) <= Pow16(b)
  {
    if a < b {
      Pow16Monotone(a, b - 1);
    }
  }

  /** A value below 16^n needs at most n digits (n >= 1). */
  lemma {:induction false} HexFits(v: nat, n: nat)
    requires 1 <= n && v < Pow16(n)
    ensures |Hex(v)| <= n
  {
    var s := Hex(v);
    if |s| > n {
      Pow16Monotone(n, |s| - 1);
    }
  }

  predicate AllDecimalDigits(s: string) {
    forall i :: 0 <= i < |s| ==> '0' <= s[i] <= '9'
  }

  /** The value of a string of decimal digits, most significant first. */
  function DecimalValue(s: string): nat
    requires AllDecimalDigits(s)
  {
    if s == [] then 0 else 10 * DecimalValue(s[..|s| - 1]) + (s[|s| - 1] - '0') as nat
  }

  /** The decimal spelling of an int, as C# string concatenation writes it. */
  function Decimal(n: int): (s: string)
    ensures |s| >= 1
    ensures n >= 0 ==> s == DecimalNat(n)
    ensures n < 0 ==> s[0] == '-' && s[1..] == DecimalNat(-n)
  {
    if n < 0 then "-" + DecimalNat(-n) else DecimalNat(n)
  }

  function DecimalNat(n: nat): (s: string)
    ensures |s| >= 1 && AllDecimalDigits(s)
  {
    if n < 10 then ["0123456789"[n]] else DecimalNat(n / 10) + ["0123456789"[n % 10]]
  }

  /** Reading the decimal spelling back gives the number, with no leading zero. */
  lemma {:induction false} DecimalNatRoundTrip(n: nat)
    ensures DecimalValue(DecimalNat(n)) == n
    ensures |DecimalNat(n)| > 1 ==> DecimalNat(n)[0] != '0'
  {
    var s := DecimalNat(n);
    if n >= 10 {
      assert s[..|s| - 1] == DecimalNat(n / 10);
      DecimalNatRoundTrip(n / 10);
    }
  }

  /** The same for a signed number: the digits after an optional minus sign denote its magnitude. */
  lemma DecimalRoundTrip(n: int)
    ensures n >= 0 ==> AllDecimalDigits(Decimal(n)) && DecimalValue(Decimal(n)) == n
    ensures n < 0 ==> Decimal(n)[0] == '-' && AllDecimalDigits(Decimal(n)[1..]) && DecimalValue(Decimal(n)[1..]) == -n
  {
    DecimalNatRoundTrip(if n >= 0 then n else -n);
  }

  /** The composite format string x16StrFormat builds once per snapshot: the width between "X" and "}" is 2 * pointerSize. */
  function AddressPattern(pointerSize: int): (s: string)
    ensures |s| >= 8
    ensures s[..5] == "0x{0:" && s[5] == 'X' && s[|s| - 1] == '}'
    ensures pointerSize >= 0 ==>
      AllDecimalDigits(s[6..|s| - 1]) && DecimalValue(s[6..|s| - 1]) == 2 * pointerSize
    ensures pointerSize < 0 ==>
      s[6] == '-' && AllDecimalDigits(s[7..|s| - 1]) && DecimalValue(s[7..|s| - 1]) == -2 * pointerSize
  {
    var width := Decimal(pointerSize * 2);
    DecimalRoundTrip(pointerSize * 2);
    var s := "0x{0:X" + width + "}";
    assert s[6..|s| - 1] == width;
    assert s[7..|s| - 1] == width[1..];
    s
  }

  /** string.Format(x16StrFormat, addr): "0x" and the padded upper-case hexadecimal digits. */
  function FormatAddress(addr: u64, pointerSize: nat): (s: string)
    ensures |s| >= 3 && s[..2] == "0x" && AllHexDigits(s[2..])
    ensures HexValue(s[2..]) == addr
  {
    var digits := PaddedHex(addr, 2 * pointerSize);
    PaddedHexRoundTrip(addr, 2 * pointerSize);
    assert ("0x" + digits)[2..] == digits;
    "0x" + digits
  }

  /** Every address that fits the pointer size prints with exactly 2 * pointerSize digits. */
  lemma FormatAddressWidth(addr: u64, pointerSize: nat)
    requires 1 <= pointerSize && addr < Pow256(pointerSize)
    ensures |FormatAddress(addr, pointerSize)| == 2 + 2 * pointerSize
  {
    Pow256IsPow16(pointerSize);
    HexFits(addr, 2 * pointerSize);
  }
}
