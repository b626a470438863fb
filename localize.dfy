/**
 * Digit localisation: `PersianNumbersConverter.to_persian` and its duplicate
 * `persian_numbers.persian_numbers` replace every ASCII digit of a string by
 * the Persian digit of the same value and copy every other character.
 */
module Localize {
  import opened Digits

  /** The table lookup `numbers.get(c, c)`. */
  function LocalizeChar(c: char): (r: char)
    ensures IsAsciiDigit(c) ==> IsPersianDigit(r) && DigitValue(r) == DigitValue(c)
    ensures !IsAsciiDigit(c) ==> r == c
  {
    if IsAsciiDigit(c) then (c as int - '0' as int + 0x06F0) as char else c
  }

  /** `''.join(numbers.get(c, c) for c in text)`. */
  function ToPersian(text: string): (r: string)
    ensures |r| == |text|
    ensures forall i :: 0 <= i < |text| ==> r[i] == LocalizeChar(text[i])
    ensures forall i :: 0 <= i < |r| ==> !IsAsciiDigit(r[i])
  {
    if text == [] then [] else [LocalizeChar(text[0])] + ToPersian(text[1..])
  }

  /** The inverse table: Persian digits back to ASCII digits. */
  function AsciiChar(c: char): (r: char)
  {
    if IsPersianDigit(c) then (c as int - 0x06F0 + '0' as int) as char else c
  }

  function ToAscii(text: string): (r: string)
    ensures |r| == |text|
    ensures forall i :: 0 <= i < |text| ==> r[i] == AsciiChar(text[i])
  {
    if text == [] then [] else [AsciiChar(text[0])] + ToAscii(text[1..])
  }

  predicate NoPersianDigit(s: string) {
    forall i :: 0 <= i < |s| ==> !IsPersianDigit(s[i])
  }

  predicate NoAsciiDigit(s: string) {
    forall i :: 0 <= i < |s| ==> !IsAsciiDigit(s[i])
  }

  /** Localising twice is localising once. */
  lemma {:induction false} ToPersianIdempotent(text: string)
    ensures ToPersian(ToPersian(text)) == ToPersian(text)
  {
    var once := ToPersian(text);
    assert forall i :: 0 <= i < |once| ==> ToPersian(once)[i] == once[i];
  }

  /** Localisation is a bijection between strings without Persian digits and strings without ASCII digits. */
  lemma {:induction false} ToAsciiUndoesToPersian(text: string)
    requires NoPersianDigit(text)
    ensures ToAscii(ToPersian(text)) == text
  {
    var back := ToAscii(ToPersian(text));
    assert forall i :: 0 <= i < |text| ==> back[i] == text[i];
  }

  lemma {:induction false} ToPersianUndoesToAscii(text: string)
    requires NoAsciiDigit(text)
    ensures ToPersian(ToAscii(text)) == text
  {
    var back := ToPersian(ToAscii(text));
    assert forall i :: 0 <= i < |text| ==> back[i] == text[i];
  }

  /** Localisation works character by character, so it distributes over concatenation. */
  lemma {:induction false} ToPersianConcat(a: string, b: string)
    ensures ToPersian(a + b) == ToPersian(a) + ToPersian(b)
  {
    var l, r := ToPersian(a + b), ToPersian(a) + ToPersian(b);
    assert forall i :: 0 <= i < |a + b| ==> l[i] == r[i];
  }

  /** ... and over slicing. */
  lemma {:induction false} ToPersianSlice(s: string, lo: int, hi: int)
    requires 0 <= lo <= hi <= |s|
    ensures ToPersian(s[lo..hi]) == ToPersian(s)[lo..hi]
  {
    var l, r := ToPersian(s[lo..hi]), ToPersian(s)[lo..hi];
    assert forall i :: 0 <= i < hi - lo ==> l[i] == r[i];
  }

  /** Localisation keeps a character a decimal digit, or a non-digit, and keeps its value. */
  lemma LocalizeKeepsDigits(c: char)
    ensures IsDecimalDigit(LocalizeChar(c)) == IsDecimalDigit(c)
    ensures IsDecimalDigit(c) ==> DigitValue(LocalizeChar(c)) == DigitValue(c)
  {
  }

  /** A localised digit string reads as the same number. */
  lemma {:induction false} ToPersianKeepsValue(s: string)
    requires AllDecimal(s)
    ensures AllDecimal(ToPersian(s))
    ensures DecimalValue(ToPersian(s)) == DecimalValue(s)
  {
    var p := ToPersian(s);
    forall i | 0 <= i < |s| ensures IsDecimalDigit(p[i]) { LocalizeKeepsDigits(s[i]); }
    if s != [] {
      var init := s[..|s| - 1];
      ToPersianKeepsValue(init);
      ToPersianSlice(s, 0, |s| - 1);
      LocalizeKeepsDigits(s[|s| - 1]);
      assert p[..|p| - 1] == ToPersian(init);
    }
  }
}
