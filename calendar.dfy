/**
 * Gregorian calendar facts used by the converters: the validity check that
 * `datetime.datetime(year, month, day)` performs, the day-of-year table of
 * `to_jalali`, and the month walk at the end of `to_gregorian`. The last two
 * use the source's own leap rule, "divisible by 4".
 */
module Calendar {

  /** The full 4/100/400 rule that `datetime` applies. */
  predicate IsLeapYear(y: int) {
    y % 4 == 0 && (y % 100 != 0 || y % 400 == 0)
  }

  function DaysInMonth(y: int, m: int): (n: int)
    requires 1 <= m <= 12
    ensures 28 <= n <= 31
    ensures m == 2 ==> (n == 29 <==> IsLeapYear(y))
  {
    if m == 2 then (if IsLeapYear(y) then 29 else 28)
    else if m in {4, 6, 9, 11} then 30
    else 31
  }

  /** The range of a C `int`, the type `datetime` converts each of its arguments to. */
  const CIntMin := -0x8000_0000
  const CIntMax := 0x7FFF_FFFF

  predicate FitsCInt(x: int) {
    CIntMin <= x <= CIntMax
  }

  /** What `datetime.datetime(year, month, day)` accepts: MINYEAR 1, MAXYEAR 9999. */
  predicate IsValidGregorian(y: int, m: int, d: int): (ok: bool)
    ensures ok ==> FitsCInt(y) && FitsCInt(m) && FitsCInt(d)
    ensures ok ==> 1 <= d <= 31 && (m == 2 ==> d <= 29) && (m == 2 && d == 29 ==> IsLeapYear(y))
    ensures ok && m in {4, 6, 9, 11} ==> d <= 30
  {
    1 <= y <= 9999 && 1 <= m <= 12 && 1 <= d <= DaysInMonth(y, m)
  }

  /** The source's leap test, used by both conversion directions. */
  predicate IsLeap4(y: int) {
    y % 4 == 0
  }

  function YearLength4(y: int): int {
    if IsLeap4(y) then 366 else 365
  }

  /** `g_a`: days before each month in a common year (index 0 unused). */
  const DaysBeforeTable: seq<int> := [0, 0, 31, 59, 90, 120, 151, 181, 212, 243, 273, 304, 334]

  /** `doy_g` in `to_jalali`: the table, plus one after February when the year is divisible by 4. */
  function GregorianDayOfYear(y: int, m: int, d: int): (doy: int)
    requires 1 <= m <= 12
    ensures doy == WalkPrefix(y, m) + d
  {
    WalkPrefixIsDaysBefore(y, m);
    DaysBeforeTable[m] + d + (if IsLeap4(y) && m > 2 then 1 else 0)
  }

  /** Every real Gregorian day gets a day of year in 1..366. */
  lemma GregorianDayOfYearRange(y: int, m: int, d: int)
    requires IsValidGregorian(y, m, d)
    ensures 1 <= GregorianDayOfYear(y, m, d) <= YearLength4(y)
  {
  }

  /**
   * The month-length list the walk in `to_gregorian` enumerates (index 0 is
   * the leading 0). Each entry is the month's length as `datetime` counts it,
   * except February in a year where the source's leap rule and the
   * Gregorian one disagree.
   */
  function WalkTable(gy: int): (t: seq<int>)
    ensures |t| == 13 && t[0] == 0
    ensures forall m :: 1 <= m <= 12 ==>
      (t[m] == DaysInMonth(gy, m) <==> m != 2 || IsLeap4(gy) == IsLeapYear(gy))
  {
    [0, 31, if IsLeap4(gy) then 29 else 28, 31, 30, 31, 30, 31, 31, 30, 31, 30, 31]
  }

  /** The sum of the first `i` entries of the walk table. */
  function WalkPrefix(gy: int, i: nat): (sum: int)
    requires i <= 13
    ensures sum >= 0
  {
    if i == 0 then 0 else WalkPrefix(gy, i - 1) + WalkTable(gy)[i - 1]
  }

  /** The walk table's running sums are `g_a` with the same leap correction. */
  lemma {:induction false} WalkPrefixIsDaysBefore(gy: int, m: int)
    requires 1 <= m <= 13
    ensures m <= 12 ==> WalkPrefix(gy, m) == DaysBeforeTable[m] + (if IsLeap4(gy) && m > 2 then 1 else 0)
    ensures m == 13 ==> WalkPrefix(gy, m) == YearLength4(gy)
  {
    if m > 1 { WalkPrefixIsDaysBefore(gy, m - 1); }
  }

  /** The running sums grow by at least 28 per month after the first entry. */
  lemma {:induction false} WalkPrefixGrows(gy: int, i: nat, j: nat)
    requires 1 <= i <= j <= 13
    ensures WalkPrefix(gy, j) >= WalkPrefix(gy, i) + 28 * (j - i)
  {
    if i < j { WalkPrefixGrows(gy, i, j - 1); }
  }

  /**
   * The `for gm, v in enumerate(...)` loop of `to_gregorian`: subtract month
   * lengths from `doy` until it fits. It ends on month 0 when `doy` is not
   * positive and runs off the end, on month 12, when `doy` exceeds the year.
   */
  method WalkMonths(gy: int, doy: int) returns (gm: int, gd: int)
    ensures doy <= 0 ==> gm == 0 && gd == doy
    ensures 1 <= doy <= YearLength4(gy) ==>
      1 <= gm <= 12 && 1 <= gd <= WalkTable(gy)[gm] && GregorianDayOfYear(gy, gm, gd) == doy
    ensures doy > YearLength4(gy) ==> gm == 12 && gd == doy - YearLength4(gy)
  {
    var months := WalkTable(gy);
    gm, gd := 0, doy;
    var i := 0;
    while i < |months|
      invariant 0 <= i <= 13
      invariant gd == doy - WalkPrefix(gy, i)
      invariant i > 0 ==> gm == i - 1 && gd > 0
      invariant i == 0 ==> gm == 0
    {
      gm := i;
      if gd <= months[i] {
        break;
      }
      gd := gd - months[i];
      i := i + 1;
    }
    WalkPrefixIsDaysBefore(gy, 13);
    if i < 13 {
      // the loop broke at month i: doy fits within the first i + 1 entries
      WalkPrefixGrows(gy, i + 1, 13);
      if gm >= 1 {
        WalkPrefixIsDaysBefore(gy, gm);
      }
    }
  }

  /** Two day-in-month pairs with the same day of year are the same pair. */
  lemma DayOfYearInjective(gy: int, m1: int, d1: int, m2: int, d2: int)
    requires 1 <= m1 <= 12 && 1 <= d1 <= WalkTable(gy)[m1]
    requires 1 <= m2 <= 12 && 1 <= d2 <= WalkTable(gy)[m2]
    requires GregorianDayOfYear(gy, m1, d1) == GregorianDayOfYear(gy, m2, d2)
    ensures m1 == m2 && d1 == d2
  {
  }

  /** A day the walk cannot reproduce: February 29 of a year divisible by 4 but not a leap year. */
  lemma WalkTableVersusDatetime(gy: int, m: int, d: int)
    requires 1 <= gy && 1 <= m <= 12 && 1 <= d <= WalkTable(gy)[m]
    ensures IsValidGregorian(gy, m, d) <==> gy <= 9999 && !(m == 2 && d == 29 && !IsLeapYear(gy))
  {
  }
}
