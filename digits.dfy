/**
 * Decimal digit characters and decimal numerals: the characters a regular
 * expression's `\d` recognises, the value `int()` gives a run of them, and
 * the text `str()` / `format(n, "02d")` renders for a number.
 */
module Digits {

  /** ASCII '0'..'9'. */
  predicate IsAsciiDigit(c: char) {
    '0' <= c <= '9'
  }

  /** Arabic-Indic digits U+0660..U+0669. */
  predicate IsArabicIndicDigit(c: char) {
    '\U{0660}' <= c <= '\U{0669}'
  }

  /** Extended Arabic-Indic (Persian) digits U+06F0..U+06F9. */
  predicate IsPersianDigit(c: char) {
    '\U{06F0}' <= c <= '\U{06F9}'
  }

  /** The decimal digits this model's `\d` recognises. */
  predicate IsDecimalDigit(c: char) {
    IsAsciiDigit(c) || IsArabicIndicDigit(c) || IsPersianDigit(c)
  }

  function DigitValue(c: char): (v: nat)
    requires IsDecimalDigit(c)
    ensures v < 10
  {
    if IsAsciiDigit(c) then c as int - '0' as int
    else if IsArabicIndicDigit(c) then c as int - 0x0660
    else c as int - 0x06F0
  }

  predicate AllDecimal(s: string) {
    forall i :: 0 <= i < |s| ==> IsDecimalDigit(s[i])
  }

  predicate AllAscii(s: string) {
    forall i :: 0 <= i < |s| ==> IsAsciiDigit(s[i])
  }

  function Pow10(k: nat): (p: nat)
    ensures p >= 1
  {
    if k == 0 then 1 else 10 * Pow10(k - 1)
  }

  /** The value `int()` gives a string of decimal digits, most significant first. */
  function DecimalValue(s: string): (v: nat)
    requires AllDecimal(s)
    ensures v < Pow10(|s|)
  {
    if s == [] then 0 else DecimalValue(s[..|s| - 1]) * 10 + DigitValue(s[|s| - 1])
  }

  /** The ASCII digit for a value below ten. */
  function AsciiDigit(d: nat): (c: char)
    requires d < 10
    ensures IsAsciiDigit(c) && DigitValue(c) == d
  {
    ('0' as int + d) as char
  }

  /** `str(n)` for a non-negative integer: reading it back gives `n`, and it has no superfluous digits. */
  function NatToString(n: nat): (s: string)
    ensures 1 <= |s| && AllAscii(s) && AllDecimal(s)
    ensures DecimalValue(s) == n
    ensures |s| > 1 ==> Pow10(|s| - 1) <= n
  {
    if n < 10 then [AsciiDigit(n)]
    else
      var s := NatToString(n / 10) + [AsciiDigit(n % 10)];
      assert s[..|s| - 1] == NatToString(n / 10);
      s
  }

  /**
   * `str(n)` for any integer: a minus sign for a negative number, then the
   * digits of its magnitude, never empty and with no leading zero.
   */
  function IntToString(n: int): (s: string)
    ensures n >= 0 ==> AllAscii(s) && AllDecimal(s) && DecimalValue(s) == n
    ensures n < 0 ==> |s| >= 2 && s[0] == '-' && AllAscii(s[1..]) && AllDecimal(s[1..]) && DecimalValue(s[1..]) == -n
    ensures n >= 0 ==> 1 <= |s| && (|s| > 1 ==> Pow10(|s| - 1) <= n)
    ensures n < 0 ==> (|s| > 2 ==> Pow10(|s| - 2) <= -n)
  {
    if n < 0 then
      var s := "-" + NatToString(-n);
      assert s[1..] == NatToString(-n);
      s
    else NatToString(n)
  }

  /** `format(n, "02d")` for a non-negative integer. */
  function Pad2(n: nat): (s: string)
    ensures 2 <= |s| && AllAscii(s) && AllDecimal(s)
    ensures DecimalValue(s) == n
    ensures n < 100 ==> |s| == 2
  {
    if n < 10 then
      var s := ['0'] + NatToString(n);
      assert s[..1] == ['0'];
      s
    else
      NatToStringWidth(n);
      NatToString(n)
  }

  /** A number renders with at least two digits from ten on, and at most two below a hundred. */
  lemma NatToStringWidth(n: nat)
    ensures n >= 10 ==> |NatToString(n)| >= 2
    ensures n < 100 ==> |NatToString(n)| <= 2
  {
    var s := NatToString(n);
    if |s| > 2 { Pow10Grows(|s| - 1); }
  }

  lemma {:induction false} Pow10Grows(k: nat)
    requires k >= 2
    ensures Pow10(k) >= 100
  {
    if k > 2 { Pow10Grows(k - 1); }
  }

  /** Four-digit numbers render as exactly four characters. */
  lemma {:induction false} FourDigitYear(n: nat)
    requires 1000 <= n <= 9999
    ensures |NatToString(n)| == 4
  {
    var s := NatToString(n);
    if |s| > 4 { Pow10Grows(|s| - 1); assert Pow10(|s| - 1) >= Pow10(4) by { Pow10Mono(4, |s| - 1); } }
    if |s| < 4 { Pow10Mono(|s|, 3); }
  }

  lemma {:induction false} Pow10Mono(i: nat, j: nat)
    requires i <= j
    ensures Pow10(i) <= Pow10(j)
  {
    if i < j { Pow10Mono(i, j - 1); }
  }
}
