/**
 * Gregorian <-> Jalali conversion as `persian_numbers.to_jalali`,
 * `persian_numbers.to_gregorian` and `persian_numbers.format_jalali` do it:
 * an arithmetic approximation of the 33-year intercalation cycle with
 * different constants in each direction.
 */
module Jalali {
  import opened Wrappers
  import opened Digits
  import opened Localize
  import opened DateParse
  import opened Calendar

  datatype JalaliDate = JalaliDate(year: int, month: int, day: int)

  /** A `datetime.date` value. */
  datatype GregorianDate = GregorianDate(year: int, month: int, day: int)

  /** A `datetime.datetime` value, down to the minute. */
  datatype DateTime = DateTime(year: int, month: int, day: int, hour: int, minute: int)

  /** Python's `int(a / b)` for a positive divisor: the quotient truncated toward zero. */
  function TruncDiv(a: int, b: int): (q: int)
    requires b > 0
    ensures a >= 0 ==> q * b <= a < q * b + b
    ensures a < 0 ==> q * b - b < a <= q * b
  {
    if a >= 0 then a / b else -((-a) / b)
  }

  /** `int((x % 132) * 0.0305)`: the position within the 132-year grand cycle, in quarters. */
  function CyclePosition(x: int): (d33: int)
    ensures 0 <= d33 <= 3
  {
    ((x % 132) * 305) / 10000
  }

  /** The correction constants `a` and `b` of either direction. */
  datatype Corrections = Corrections(a: int, b: int)

  /** `a` and `b` for a Gregorian year in `to_jalali`, with the secondary correction for 1900..1962. */
  function ToJalaliCorrections(gy: int): (c: Corrections)
    ensures 285 <= c.a <= 287 && 78 <= c.b <= 81
    ensures c.a + c.b <= 366
  {
    var d4 := gy % 4;
    var d33 := CyclePosition(gy - 16);
    var a := if d33 == 3 || d33 < d4 - 1 || d4 == 0 then 286 else 287;
    var b := if (d33 == 1 || d33 == 2) && (d33 == d4 || d4 == 1) then 78
             else if d33 == 3 && d4 == 0 then 80
             else 79;
    if TruncDiv(gy - 10, 63) == 30 then Corrections(a - 1, b + 1) else Corrections(a, b)
  }

  /** `a` and `b` for a Jalali year in `to_gregorian`, with the secondary correction for 1279..1341. */
  function ToGregorianCorrections(jy: int): (c: Corrections)
    ensures 285 <= c.a <= 287 && 78 <= c.b <= 81
    ensures c.a + c.b <= 366
    ensures (jy + 1) % 4 != 0 ==> c.a + c.b <= 365
  {
    var d4 := (jy + 1) % 4;
    var d33 := CyclePosition(jy - 55);
    var a := if d33 != 3 && d4 <= d33 then 287 else 286;
    var b := if (d33 == 1 || d33 == 2) && (d33 == d4 || d4 == 1) then 78
             else if d33 == 3 && d4 == 0 then 80
             else 79;
    if TruncDiv(jy - 19, 63) == 20 then Corrections(a - 1, b + 1) else Corrections(a, b)
  }

  /** Months 1..6 have 31 days, months 7..12 have 30. */
  function JalaliMonthLength(m: int): int {
    if m <= 6 then 31 else 30
  }

  /** What `to_gregorian` accepts as a Jalali date: a day that exists in its month, in any year from 1 on. */
  predicate IsValidJalali(y: int, m: int, d: int): (ok: bool)
    ensures ok <==> y >= 1 && 1 <= m <= 12 && 1 <= d <= JalaliMonthLength(m)
  {
    y >= 1 && 1 <= m <= 12 && 1 <= d <= 31 && !(m > 6 && d == 31)
  }

  /** The number of days in the Jalali months before month `m`. */
  function JalaliDaysBefore(m: nat): nat {
    if m <= 1 then 0 else JalaliDaysBefore(m - 1) + JalaliMonthLength(m - 1)
  }

  /** Six months of 31 days, then months of 30: the months before `m` in closed form. */
  lemma {:induction false} JalaliDaysBeforeClosedForm(m: int)
    ensures 1 <= m <= 13 ==> JalaliDaysBefore(m) == if m <= 7 then (m - 1) * 31 else 186 + (m - 7) * 30
  {
    if 1 < m <= 13 { JalaliDaysBeforeClosedForm(m - 1); }
  }

  /** `doy_j` in `to_gregorian`: the days of the months before `m`, plus `d`. */
  function JalaliDayOfYear(m: int, d: int): (doy: int)
    ensures 1 <= m <= 12 ==> doy == JalaliDaysBefore(m) + d
  {
    JalaliDaysBeforeClosedForm(m);
    if m < 7 then (m - 1) * 31 + d else (m - 7) * 30 + d + 186
  }

  /** The month and day split at the end of `to_jalali`; it inverts JalaliDayOfYear. */
  function JalaliMonthDay(doy: int): (md: (int, int))
    requires 1 <= doy <= 366
    ensures 1 <= md.0 <= 12 && 1 <= md.1 <= JalaliMonthLength(md.0)
    ensures JalaliDayOfYear(md.0, md.1) == doy
  {
    if doy < 187 then
      var jm := TruncDiv(doy - 1, 31);
      (jm + 1, doy - 31 * jm)
    else
      var jm := TruncDiv(doy - 187, 30);
      (jm + 7, doy - 186 - jm * 30)
  }

  /** Splitting the day of year of a valid month and day gives that month and day back. */
  lemma JalaliSplitRoundTrip(m: int, d: int)
    requires 1 <= m <= 12 && 1 <= d <= JalaliMonthLength(m)
    ensures 1 <= JalaliDayOfYear(m, d) <= 366
    ensures JalaliMonthDay(JalaliDayOfYear(m, d)) == (m, d)
  {
  }

  /** The arithmetic of `to_jalali` once the Gregorian date has been validated. */
  function GregorianToJalali(y: int, m: int, d: int): (j: JalaliDate)
    requires IsValidGregorian(y, m, d)
    ensures 1 <= j.month <= 12 && 1 <= j.day <= JalaliMonthLength(j.month)
    ensures j.year >= 1 ==> IsValidJalali(j.year, j.month, j.day)
    ensures var doy := GregorianDayOfYear(y, m, d);
            var c := ToJalaliCorrections(y);
            && (j.year == y - 621 <==> doy > c.b)
            && (j.year == y - 621 || j.year == y - 622)
            && JalaliDayOfYear(j.month, j.day) == (if doy > c.b then doy - c.b else doy + c.a)
  {
    GregorianDayOfYearRange(y, m, d);
    var doy := GregorianDayOfYear(y, m, d);
    var c := ToJalaliCorrections(y);
    var (jy, doyJ) := if doy > c.b then (y - 621, doy - c.b) else (y - 622, doy + c.a);
    var (jm, jd) := JalaliMonthDay(doyJ);
    JalaliDate(jy, jm, jd)
  }

  /**
   * `f"{jy}/{jm:02d}/{jd:02d}"`: the year as `str()` renders it, a slash, and
   * for a month and day below 100 two ASCII digits each, separated by a slash.
   */
  function JalaliText(j: JalaliDate): (r: string)
    requires j.month >= 0 && j.day >= 0
    ensures var y := IntToString(j.year); |r| > |y| && r[..|y|] == y && r[|y|] == '/'
    ensures j.month < 100 && j.day < 100 ==>
      var n := |r|;
      && n == |IntToString(j.year)| + 6 && r[n - 3] == '/'
      && AllAscii(r[n - 5..n - 3]) && AllDecimal(r[n - 5..n - 3]) && DecimalValue(r[n - 5..n - 3]) == j.month
      && AllAscii(r[n - 2..]) && AllDecimal(r[n - 2..]) && DecimalValue(r[n - 2..]) == j.day
  {
    SlashedShape(IntToString(j.year), Pad2(j.month), Pad2(j.day));
    IntToString(j.year) + "/" + Pad2(j.month) + "/" + Pad2(j.day)
  }

  /** Where the parts of `y/mm/dd` sit in the joined string. */
  lemma SlashedShape(y: string, mm: string, dd: string)
    ensures var r := y + "/" + mm + "/" + dd; |r| > |y| && r[..|y|] == y && r[|y|] == '/'
    ensures |mm| == 2 && |dd| == 2 ==>
      var r := y + "/" + mm + "/" + dd;
      var n := |r|;
      n == |y| + 6 && r[n - 3] == '/' && r[n - 5..n - 3] == mm && r[n - 2..] == dd
  {
  }

  /**
   * `to_jalali`: parse, validate as a Gregorian day, convert, render. The
   * validating `datetime.datetime(year, month, day)` raises OverflowError,
   * which the `except ValueError` does not catch, for a number outside a C
   * `int`, and ValueError for any other triple that is not a day.
   */
  function ToJalali(input: DateInput): (r: Result<string, ConversionError>)
    ensures ExtractTriple(input, true).Err? ==> r == Err(ExtractTriple(input, true).error)
    ensures ExtractTriple(input, true).Ok? ==>
      var (y, m, d) := ExtractTriple(input, true).value;
      && (r == Err(IntegerOverflow) <==> !(FitsCInt(y) && FitsCInt(m) && FitsCInt(d)))
      && (r == Err(InvalidDate) <==> FitsCInt(y) && FitsCInt(m) && FitsCInt(d) && !IsValidGregorian(y, m, d))
      && (r.Ok? <==> IsValidGregorian(y, m, d))
      && (IsValidGregorian(y, m, d) ==> r == Ok(JalaliText(GregorianToJalali(y, m, d))))
    ensures r.Ok? || r.error in {InvalidType, InvalidFormat, InvalidDate, IntegerOverflow}
  {
    match ExtractTriple(input, true)
    case Err(e) => Err(e)
    case Ok((y, m, d)) =>
      if !(FitsCInt(y) && FitsCInt(m) && FitsCInt(d)) then Err(IntegerOverflow)
      else if !IsValidGregorian(y, m, d) then Err(InvalidDate)
      else Ok(JalaliText(GregorianToJalali(y, m, d)))
  }

  /** The arithmetic of `to_gregorian` up to the month walk: the Gregorian year and day of year. */
  function JalaliToGregorianDay(jy: int, jm: int, jd: int): (r: (int, int))
    requires IsValidJalali(jy, jm, jd)
    ensures 1 <= r.1 <= YearLength4(r.0)
    ensures var c := ToGregorianCorrections(jy);
            && (r.0 == jy + 621 <==> JalaliDayOfYear(jm, jd) <= c.a)
            && (r.0 == jy + 621 || r.0 == jy + 622)
  {
    var doyJ := JalaliDayOfYear(jm, jd);
    var c := ToGregorianCorrections(jy);
    assert IsLeap4(jy + 621) <==> (jy + 1) % 4 == 0 by {
      assert jy + 621 == (jy + 1) + 4 * 155;
    }
    if doyJ <= c.a then (jy + 621, doyJ + c.b) else (jy + 622, doyJ - c.a)
  }

  /**
   * `to_gregorian`: parse, validate as a Jalali day, convert, walk the months,
   * and build `datetime.date(gy, gm, gd)`, which raises OverflowError for a
   * year outside a C `int` and ValueError past year 9999 or on February 29 of
   * a year like 2100 (divisible by 4, not a leap year).
   */
  method ToGregorian(input: DateInput) returns (r: Result<GregorianDate, ConversionError>)
    ensures ExtractTriple(input, false).Err? ==> r == Err(ExtractTriple(input, false).error)
    ensures ExtractTriple(input, false).Ok? ==>
      var (y, m, d) := ExtractTriple(input, false).value;
      && (r == Err(InvalidDate) <==> !IsValidJalali(y, m, d))
      && (IsValidJalali(y, m, d) ==>
            var (gy, gdoy) := JalaliToGregorianDay(y, m, d);
            && (r == Err(IntegerOverflow) <==> gy > CIntMax)
            && (r == Err(DateOutOfRange) <==> gy <= CIntMax && (gy > 9999 || (gdoy == 60 && IsLeap4(gy) && !IsLeapYear(gy))))
            && (r.Ok? <==> gy <= 9999 && !(gdoy == 60 && IsLeap4(gy) && !IsLeapYear(gy)))
            && (r.Ok? ==>
                  && r.value.year == gy
                  && IsValidGregorian(r.value.year, r.value.month, r.value.day)
                  && GregorianDayOfYear(gy, r.value.month, r.value.day) == gdoy))
  {
    var triple := ExtractTriple(input, false);
    if triple.Err? {
      return Err(triple.error);
    }
    var (y, m, d) := triple.value;
    if !IsValidJalali(y, m, d) {
      return Err(InvalidDate);
    }
    var (gy, gdoy) := JalaliToGregorianDay(y, m, d);
    var gm, gd := WalkMonths(gy, gdoy);
    WalkTableVersusDatetime(gy, gm, gd);
    if gy > CIntMax {
      return Err(IntegerOverflow);
    }
    if !IsValidGregorian(gy, gm, gd) {
      return Err(DateOutOfRange);
    }
    return Ok(GregorianDate(gy, gm, gd));
  }

  predicate IsValidDateTime(dt: DateTime) {
    IsValidGregorian(dt.year, dt.month, dt.day) && 0 <= dt.hour < 24 && 0 <= dt.minute < 60
  }

  /** `f" -- {dt.hour:02d}:{dt.minute:02d}"`: ` -- `, the hour in two digits, `:`, the minute in two digits. */
  function TimeSuffix(hour: nat, minute: nat): (t: string)
    ensures hour < 100 && minute < 100 ==>
      && |t| == 9 && t[..4] == " -- " && t[6] == ':'
      && AllAscii(t[4..6]) && AllDecimal(t[4..6]) && DecimalValue(t[4..6]) == hour
      && AllAscii(t[7..]) && AllDecimal(t[7..]) && DecimalValue(t[7..]) == minute
  {
    var hh, mm := Pad2(hour), Pad2(minute);
    var t := " -- " + hh + ":" + mm;
    assert t[4..4 + |hh|] == hh;
    assert t[5 + |hh|..] == mm;
    t
  }

  /** `format_jalali`: the Jalali date, optionally the time, all digits localised. */
  function FormatJalali(dt: DateTime, withTime: bool): (r: string)
    requires IsValidDateTime(dt)
    ensures ToJalali(DateValue(dt.year, dt.month, dt.day)).Ok?
    ensures var date := ToPersian(ToJalali(DateValue(dt.year, dt.month, dt.day)).value);
            r == if withTime then date + ToPersian(TimeSuffix(dt.hour, dt.minute)) else date
    ensures NoAsciiDigit(r)
  {
    var jalaliDate := ToJalali(DateValue(dt.year, dt.month, dt.day)).value;
    var timePart := if withTime then TimeSuffix(dt.hour, dt.minute) else "";
    ToPersianConcat(jalaliDate, timePart);
    ToPersian(jalaliDate + timePart)
  }

  /** Month 12 day 30 passes `to_gregorian`'s validation in every year, month 7 day 31 in none. */
  lemma JalaliValidityBoundary(y: int)
    requires y >= 1
    ensures IsValidJalali(y, 12, 30)
    ensures !IsValidJalali(y, 7, 31)
  {
  }

  /**
   * Within one Gregorian year, the next day maps to the next Jalali day: the
   * same Jalali year one day later, or day 1 of the next Jalali year after
   * day `a + b` (so the Jalali year just ended had `a + b` days).
   */
  lemma ConsecutiveDays(y: int, m1: int, d1: int, m2: int, d2: int)
    requires IsValidGregorian(y, m1, d1) && IsValidGregorian(y, m2, d2)
    requires GregorianDayOfYear(y, m2, d2) == GregorianDayOfYear(y, m1, d1) + 1
    ensures var j1, j2 := GregorianToJalali(y, m1, d1), GregorianToJalali(y, m2, d2);
            var c := ToJalaliCorrections(y);
            || (j2.year == j1.year && JalaliDayOfYear(j2.month, j2.day) == JalaliDayOfYear(j1.month, j1.day) + 1)
            || (j2.year == j1.year + 1 && j2.month == 1 && j2.day == 1 && JalaliDayOfYear(j1.month, j1.day) == c.a + c.b)
  {
    var j2 := GregorianToJalali(y, m2, d2);
    var c := ToJalaliCorrections(y);
    if j2.year == y - 621 && GregorianDayOfYear(y, m2, d2) == c.b + 1 {
      JalaliSplitRoundTrip(1, 1);
      assert JalaliMonthDay(1) == (1, 1);
      assert JalaliMonthDay(JalaliDayOfYear(j2.month, j2.day)) == (j2.month, j2.day) by {
        JalaliSplitRoundTrip(j2.month, j2.day);
      }
    }
  }

  /** The string `to_jalali` returns for a four-digit Jalali year is accepted by the date pattern and reads back as that date. */
  lemma {:induction false} JalaliTextParses(j: JalaliDate)
    requires 1000 <= j.year <= 9999 && 1 <= j.month <= 12 && 1 <= j.day <= 31
    ensures ParseYmd(JalaliText(j)) == Some((j.year, j.month, j.day))
  {
    var y, mm, dd := NatToString(j.year), Pad2(j.month), Pad2(j.day);
    FourDigitYear(j.year);
    assert JalaliText(j) == Assemble(y, '/', mm, '/', dd, false);
    MatchGroupsComplete(y, '/', mm, '/', dd, false);
  }

  /**
   * The localised date `format_jalali` shows without a time is still accepted
   * by `to_gregorian`'s pattern, whose `\d` and `int()` read Persian digits.
   */
  lemma {:induction false} FormattedDateParses(dt: DateTime)
    requires IsValidDateTime(dt)
    requires var j := GregorianToJalali(dt.year, dt.month, dt.day); 1000 <= j.year <= 9999
    ensures var j := GregorianToJalali(dt.year, dt.month, dt.day);
            ParseYmd(FormatJalali(dt, false)) == Some((j.year, j.month, j.day))
  {
    var j := GregorianToJalali(dt.year, dt.month, dt.day);
    assert FormatJalali(dt, false) == ToPersian(JalaliText(j));
    LocalizedTextParses(j);
  }

  /** The localised form of `to_jalali`'s output for a four-digit year parses back to that date. */
  lemma LocalizedTextParses(j: JalaliDate)
    requires 1000 <= j.year <= 9999 && 1 <= j.month <= 12 && 1 <= j.day <= 31
    ensures ParseYmd(ToPersian(JalaliText(j))) == Some((j.year, j.month, j.day))
  {
    var y, mm, dd := NatToString(j.year), Pad2(j.month), Pad2(j.day);
    FourDigitYear(j.year);
    assert JalaliText(j) == y + "/" + mm + "/" + dd;
    LocalizedPartsParse(y, mm, dd);
  }

  lemma LocalizedPartsParse(y: string, mm: string, dd: string)
    requires |y| == 4 && |mm| == 2 && |dd| == 2 && AllDecimal(y) && AllDecimal(mm) && AllDecimal(dd)
    ensures ParseYmd(ToPersian(y + "/" + mm + "/" + dd)) == Some((DecimalValue(y), DecimalValue(mm), DecimalValue(dd)))
  {
    LocalizedDateParts(y, mm, dd);
    ToPersianKeepsValue(y);
    ToPersianKeepsValue(mm);
    ToPersianKeepsValue(dd);
    var py, pm, pd := ToPersian(y), ToPersian(mm), ToPersian(dd);
    assert ToPersian(y + "/" + mm + "/" + dd) == Assemble(py, '/', pm, '/', pd, false);
    ParseAssembled(py, '/', pm, '/', pd, false);
  }

  /** Localising a slash-separated date localises each part and keeps the slashes. */
  lemma LocalizedDateParts(y: string, mm: string, dd: string)
    ensures ToPersian(y + "/" + mm + "/" + dd) == ToPersian(y) + "/" + ToPersian(mm) + "/" + ToPersian(dd)
  {
    ToPersianConcat(y + "/" + mm + "/", dd);
    ToPersianConcat(y + "/" + mm, "/");
    ToPersianConcat(y + "/", mm);
    ToPersianConcat(y, "/");
    assert ToPersian("/") == "/";
  }

  /** The localised time suffix: " -- ", two Persian digits of the hour, ':', two of the minute. */
  lemma {:induction false} LocalizedTimeSuffix(hour: nat, minute: nat)
    requires hour < 24 && minute < 60
    ensures var t := ToPersian(TimeSuffix(hour, minute));
            && |t| == 9
            && t[..4] == " -- " && t[6] == ':'
            && AllDecimal(t[4..6]) && DecimalValue(t[4..6]) == hour
            && AllDecimal(t[7..]) && DecimalValue(t[7..]) == minute
  {
    var hh, mm := Pad2(hour), Pad2(minute);
    ToPersianConcat(" -- " + hh + ":", mm);
    ToPersianConcat(" -- " + hh, ":");
    ToPersianConcat(" -- ", hh);
    ToPersianKeepsValue(hh);
    ToPersianKeepsValue(mm);
    assert ToPersian(" -- ") == " -- ";
    assert ToPersian(":") == ":";
    var t := ToPersian(TimeSuffix(hour, minute));
    assert t == " -- " + ToPersian(hh) + ":" + ToPersian(mm);
    assert t[4..6] == ToPersian(hh);
    assert t[7..] == ToPersian(mm);
  }

  /**
   * Any string followed by the localised time suffix ends in ` -- `, the hour,
   * `:` and the minute; by FormatJalali's contract, the with-time output is
   * the date-only output followed by that suffix.
   */
  lemma SuffixedShape(date: string, hour: nat, minute: nat)
    requires hour < 24 && minute < 60
    ensures var r := date + ToPersian(TimeSuffix(hour, minute));
            var n := |r|;
            && n >= 9
            && r[..n - 9] == date
            && r[n - 9..n - 5] == " -- " && r[n - 3] == ':'
            && AllDecimal(r[n - 5..n - 3]) && DecimalValue(r[n - 5..n - 3]) == hour
            && AllDecimal(r[n - 2..]) && DecimalValue(r[n - 2..]) == minute
  {
    LocalizedTimeSuffix(hour, minute);
    SuffixSlices(date, ToPersian(TimeSuffix(hour, minute)));
  }

  /** Slicing a string that ends in a nine-character suffix. */
  lemma SuffixSlices(date: string, t: string)
    requires |t| == 9
    ensures var r, n := date + t, |date| + 9;
            && r[..n - 9] == date && r[n - 9..n - 5] == t[..4] && r[n - 3] == t[6]
            && r[n - 5..n - 3] == t[4..6] && r[n - 2..] == t[7..]
  {
  }

  /** 2024-07-05 is 1403/04/15. */
  lemma SummerDayToJalali()
    ensures ToJalali(Text("2024-07-05")) == Ok("1403/04/15")
  {
    SummerDayParses();
    SummerDayRenders();
  }

  lemma SummerDayParses()
    ensures ParseYmd("2024-07-05") == Some((2024, 7, 5))
  {
    ParsesAs("2024", "07", "05", 2024, 7, 5);
    assert "2024" + "-" + "07" + "-" + "05" == "2024-07-05";
  }

  lemma SummerDayRenders()
    ensures GregorianToJalali(2024, 7, 5) == JalaliDate(1403, 4, 15)
    ensures JalaliText(JalaliDate(1403, 4, 15)) == "1403/04/15"
  {
    SummerDayConverts();
    RendersAs(1403, 4, 15, "1403", "04", "15");
  }

  lemma SummerDayConverts()
    ensures GregorianToJalali(2024, 7, 5) == JalaliDate(1403, 4, 15)
  {
    assert GregorianDayOfYear(2024, 7, 5) == 187;
    assert ToJalaliCorrections(2024) == Corrections(286, 79);
    assert JalaliMonthDay(108) == (4, 15);
  }

  /** 1403/04/15 converts back to day 187 of 2024, which is July 5. */
  lemma SummerDayToGregorian()
    ensures JalaliToGregorianDay(1403, 4, 15) == (2024, 187)
    ensures GregorianDayOfYear(2024, 7, 5) == 187
  {
  }

  /** The display string for 2024-07-05 14:30 without the time. */
  lemma FormatDateExample()
    ensures FormatJalali(DateTime(2024, 7, 5, 14, 30), false) == "\U{06F1}\U{06F4}\U{06F0}\U{06F3}/\U{06F0}\U{06F4}/\U{06F1}\U{06F5}"
  {
    SummerDayRenders();
    assert ToJalali(DateValue(2024, 7, 5)) == Ok("1403/04/15");
    LocalizedAs("1403/04/15", "\U{06F1}\U{06F4}\U{06F0}\U{06F3}/\U{06F0}\U{06F4}/\U{06F1}\U{06F5}");
  }

  /** The time part of the docstring's `۱۴۰۳/۰۴/۱۵ -- ۱۴:۳۰`; SuffixedShape places it after the date. */
  lemma TimeSuffixExample()
    ensures ToPersian(TimeSuffix(14, 30)) == " -- \U{06F1}\U{06F4}:\U{06F3}\U{06F0}"
  {
    assert Pad2(14) == "14" && Pad2(30) == "30";
    assert TimeSuffix(14, 30) == " -- 14:30";
    LocalizedAs(" -- 14:30", " -- \U{06F1}\U{06F4}:\U{06F3}\U{06F0}");
  }

  /** Example helper: a string localises to the given characters. */
  lemma LocalizedAs(s: string, r: string)
    requires |s| == |r| && forall i :: 0 <= i < |s| ==> r[i] == LocalizeChar(s[i])
    ensures ToPersian(s) == r
  {
  }

  /** A string naming February 30 matches the pattern but is refused as a date. */
  lemma February30Rejected()
    ensures ToJalali(Text("2023-02-30")) == Err(InvalidDate)
  {
    February30Parses();
    assert ExtractTriple(Text("2023-02-30"), true) == Ok((2023, 2, 30));
    assert !IsValidGregorian(2023, 2, 30);
  }

  lemma February30Parses()
    ensures ParseYmd("2023-02-30") == Some((2023, 2, 30))
  {
    ParsesAs("2023", "02", "30", 2023, 2, 30);
    assert "2023" + "-" + "02" + "-" + "30" == "2023-02-30";
  }

  /** February 29 is refused in 2023 ... */
  lemma LeapDay2023Rejected()
    ensures ToJalali(Tuple([2023, 2, 29])) == Err(InvalidDate)
  {
    assert ExtractTriple(Tuple([2023, 2, 29]), true) == Ok((2023, 2, 29));
    assert !IsLeapYear(2023);
  }

  /** ... and accepted in 2024, the Jalali leap-day boundary aside. */
  lemma LeapDay2024Accepted()
    ensures ToJalali(Tuple([2024, 2, 29])).Ok?
  {
    assert ExtractTriple(Tuple([2024, 2, 29]), true) == Ok((2024, 2, 29));
    assert IsValidGregorian(2024, 2, 29);
  }

  /** A value of another type is refused before anything else. */
  lemma ForeignValueRejected()
    ensures ToJalali(OtherValue) == Err(InvalidType)
    ensures ToJalali(Tuple([2024, 7])) == Err(InvalidType)
  {
  }

  /** Example helper: a dash-separated date string reads as the given numbers. */
  lemma ParsesAs(y: string, m: string, d: string, yv: nat, mv: nat, dv: nat)
    requires yv < 10000 && mv < 100 && dv < 100
    requires y == NatToString(yv) && |y| == 4 && m == Pad2(mv) && |m| == 2 && d == Pad2(dv) && |d| == 2
    ensures ParseYmd(y + "-" + m + "-" + d) == Some((yv, mv, dv))
  {
    assert y + "-" + m + "-" + d == Assemble(y, '-', m, '-', d, false);
    ParseAssembled(y, '-', m, '-', d, false);
  }

  /** Example helper: a Jalali date renders as the given pieces. */
  lemma RendersAs(jy: nat, jm: nat, jd: nat, y: string, m: string, d: string)
    requires y == NatToString(jy) && m == Pad2(jm) && d == Pad2(jd)
    ensures JalaliText(JalaliDate(jy, jm, jd)) == y + "/" + m + "/" + d
  {
  }

  /**
   * Jalali 1478/12/10 lands on day 60 of 2100, which the month walk turns into
   * February 29; `datetime.date(2100, 2, 29)` then fails.
   */
  lemma CenturyLeapDayExample()
    ensures IsValidJalali(1478, 12, 10)
    ensures JalaliToGregorianDay(1478, 12, 10) == (2100, 60)
    ensures IsLeap4(2100) && !IsLeapYear(2100)
  {
  }

  /** A tuple year beyond a C `int`: `datetime.datetime` raises OverflowError, which escapes `to_jalali`. */
  lemma OverflowTupleRejected()
    ensures ToJalali(Tuple([0x8000_0000, 1, 1])) == Err(IntegerOverflow)
  {
    assert ExtractTriple(Tuple([0x8000_0000, 1, 1]), true) == Ok((0x8000_0000, 1, 1));
  }

  /**
   * Jalali 2147483027/01/01 passes `to_gregorian`'s validation and lands in
   * Gregorian year 2^31, which `datetime.date` cannot take as a C `int`.
   */
  lemma OverflowYearExample()
    ensures IsValidJalali(2147483027, 1, 1)
    ensures JalaliToGregorianDay(2147483027, 1, 1).0 == CIntMax + 1
  {
  }
}
