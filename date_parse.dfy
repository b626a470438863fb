/**
 * The input handling shared by `to_jalali` and `to_gregorian`: the regular
 * expression `^(\d{4})\D(\d{1,2})\D(\d{1,2})$`, the accepted value shapes,
 * and the error kinds raised along the way.
 */
module DateParse {
  import opened Wrappers
  import opened Digits

  /** Why a conversion refused its input. */
  datatype ConversionError =
    | InvalidFormat     // a string that does not match the pattern (ValueError)
    | InvalidType       // none of the accepted shapes (TypeError)
    | InvalidDate       // a triple that is not a day of its calendar (ValueError)
    | DateOutOfRange    // to_gregorian's result rejected by datetime.date (ValueError)
    | IntegerOverflow   // a number datetime cannot take as a C int (OverflowError)

  /** The Python values a caller can pass. */
  datatype DateInput =
    | DateValue(year: int, month: int, day: int)  // datetime.date or datetime.datetime
    | Text(text: string)
    | Tuple(items: seq<int>)
    | OtherValue                                  // anything else

  /** `$` also matches just before one final newline. */
  function StripFinalNewline(s: string): (t: string)
    ensures |s| > 0 && s[|s| - 1] == '\n' ==> s == t + "\n"
    ensures !(|s| > 0 && s[|s| - 1] == '\n') ==> t == s
  {
    if |s| > 0 && s[|s| - 1] == '\n' then s[..|s| - 1] else s
  }

  /** The groups of `^(\d{4})\D(\d{1,2})\D(\d{1,2})$`, or None when it does not match. */
  function MatchGroups(s: string): (r: Option<(string, string, string)>)
    ensures r.Some? ==>
      && |r.value.0| == 4 && AllDecimal(r.value.0)
      && 1 <= |r.value.1| <= 2 && AllDecimal(r.value.1)
      && 1 <= |r.value.2| <= 2 && AllDecimal(r.value.2)
  {
    var t := StripFinalNewline(s);
    if |t| < 8 || !AllDecimal(t[..4]) || IsDecimalDigit(t[4]) || !IsDecimalDigit(t[5]) then None
    else
      var k := if IsDecimalDigit(t[6]) then 7 else 6;
      if IsDecimalDigit(t[k]) then None
      else
        var rest := t[k + 1..];
        if 1 <= |rest| <= 2 && AllDecimal(rest) then Some((t[..4], t[5..k], rest)) else None
  }

  /** The pieces of a matching string, in the pattern's terms. */
  predicate WellFormedParts(y: string, sep1: char, m: string, sep2: char, d: string) {
    && |y| == 4 && AllDecimal(y)
    && !IsDecimalDigit(sep1)
    && 1 <= |m| <= 2 && AllDecimal(m)
    && !IsDecimalDigit(sep2)
    && 1 <= |d| <= 2 && AllDecimal(d)
  }

  function Assemble(y: string, sep1: char, m: string, sep2: char, d: string, newline: bool): string {
    y + [sep1] + m + [sep2] + d + (if newline then "\n" else "")
  }

  /** Every match is a well-formed assembly of the groups it returns. */
  lemma MatchGroupsSound(s: string)
    requires MatchGroups(s).Some?
    ensures var (y, m, d) := MatchGroups(s).value;
      && WellFormedParts(y, s[4], m, s[5 + |m|], d)
      && s == Assemble(y, s[4], m, s[5 + |m|], d, s[|s| - 1] == '\n')
  {
    var t := StripFinalNewline(s);
    var (y, m, d) := MatchGroups(s).value;
    assert t == y + [t[4]] + m + [t[5 + |m|]] + d;
  }

  /** Every well-formed assembly matches, with exactly its own groups. */
  lemma MatchGroupsComplete(y: string, sep1: char, m: string, sep2: char, d: string, newline: bool)
    requires WellFormedParts(y, sep1, m, sep2, d)
    ensures MatchGroups(Assemble(y, sep1, m, sep2, d, newline)) == Some((y, m, d))
  {
    var s := Assemble(y, sep1, m, sep2, d, newline);
    var t := y + [sep1] + m + [sep2] + d;
    assert StripFinalNewline(s) == t by {
      assert IsDecimalDigit(d[|d| - 1]);
      if newline { assert s == t + "\n"; } else { assert s == t; }
    }
    assert t[..4] == y;
    assert t[5] == m[0];
    var k := 5 + |m|;
    assert t[k] == sep2;
    assert |m| == 1 ==> !IsDecimalDigit(t[6]);
    assert |m| == 2 ==> IsDecimalDigit(t[6]);
    assert t[5..k] == m;
    assert t[k + 1..] == d;
  }

  /** The `(year, month, day)` that `map(int, m.groups())` yields, or None. */
  function ParseYmd(s: string): (r: Option<(int, int, int)>)
    ensures r.Some? <==> MatchGroups(s).Some?
    ensures r.Some? ==> 0 <= r.value.0 <= 9999 && 0 <= r.value.1 <= 99 && 0 <= r.value.2 <= 99
  {
    match MatchGroups(s)
    case None => None
    case Some((y, m, d)) =>
      assert Pow10(4) == 10000;
      assert |m| <= 2 && |d| <= 2 ==> Pow10(|m|) <= 100 && Pow10(|d|) <= 100;
      Some((DecimalValue(y), DecimalValue(m), DecimalValue(d)))
  }

  /**
   * A well-formed assembly parses to the `int()` values of its own groups,
   * whatever the separators and the optional final newline.
   */
  lemma ParseAssembled(y: string, sep1: char, m: string, sep2: char, d: string, newline: bool)
    requires WellFormedParts(y, sep1, m, sep2, d)
    ensures ParseYmd(Assemble(y, sep1, m, sep2, d, newline)) == Some((DecimalValue(y), DecimalValue(m), DecimalValue(d)))
  {
    MatchGroupsComplete(y, sep1, m, sep2, d, newline);
  }

  /**
   * The shape dispatch at the head of both converters. `acceptsDateValue`
   * is true for to_jalali, which also takes date and datetime values.
   */
  function ExtractTriple(input: DateInput, acceptsDateValue: bool): (r: Result<(int, int, int), ConversionError>)
    ensures r == Err(InvalidType) <==>
      || input.OtherValue?
      || (input.Tuple? && |input.items| != 3)
      || (input.DateValue? && !acceptsDateValue)
    ensures r == Err(InvalidFormat) <==> input.Text? && MatchGroups(input.text).None?
    ensures r.Err? ==> r.error in {InvalidType, InvalidFormat}
    ensures input.Text? && r.Ok? ==> Some(r.value) == ParseYmd(input.text)
    ensures input.Tuple? && r.Ok? ==> [r.value.0, r.value.1, r.value.2] == input.items
    ensures input.DateValue? && acceptsDateValue ==> r == Ok((input.year, input.month, input.day))
  {
    match input
    case DateValue(y, m, d) => if acceptsDateValue then Ok((y, m, d)) else Err(InvalidType)
    case Text(s) =>
      (match ParseYmd(s)
       case None => Err(InvalidFormat)
       case Some(t) => Ok(t))
    case Tuple(items) => if |items| == 3 then Ok((items[0], items[1], items[2])) else Err(InvalidType)
    case OtherValue => Err(InvalidType)
  }
}
