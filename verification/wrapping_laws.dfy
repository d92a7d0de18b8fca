/**
 * When the two month operations of `src/date/mod.rs` return, and what they
 * return when the day spills.  `wrapping_add` and `wrapping_sub` both end in
 * `DateArith.BuildSpilled`; the laws here name the year and month each
 * forms and read the exact panic condition and the spilled day off that
 * last step.
 */
module WrappingLaws {
  import opened Ints
  import opened Wrappers
  import opened Dates
  import opened DateArith
  import Gregorian

  /** `wrapping_add` ends in the shared last step, with the year and month it forms. */
  lemma WrappingAddIsSpilled(date: FieldDate, n: Months, y: u32, m: u8)
    requires 1 <= date.month.m + n.n < U32_LIMIT
    requires y == date.year + (date.month.m + n.n - 1) / 12
    requires m == date.month.m + ((date.month.m + n.n - 1) % 12 + 1)
    requires date.day.d > LastDayOfMonth(y, Month(m)).d ==> m + 1 < U8_LIMIT
    ensures WrappingAdd(date, n) == BuildSpilled(y, y, m, date.day.d)
  {
    assert date.year + (date.month.m + n.n - 1) / 12 < U32_LIMIT;
  }

  /**
   * When `wrapping_add` returns.  With k = m + n - 1, the year y and the
   * month M it forms, it builds a date exactly when M is at most 12 and the
   * day exists in month M of year y, or M is at most 11 and the surplus of
   * the day over month M exists in month M + 1; the surplus is then the new
   * day, in month M + 1.
   */
  lemma WrappingAddBuilt(date: FieldDate, n: Months, k: nat, y: u32, m: u8)
    requires k + 1 == date.month.m + n.n < U32_LIMIT
    requires y == date.year + k / 12 && m == date.month.m + k % 12 + 1
    requires date.day.d > LastDayOfMonth(y, Month(m)).d ==> m + 1 < U8_LIMIT
    ensures WrappingAdd(date, n).Some? <==>
      m <= 12 && (date.day.d <= Gregorian.DaysInMonth(y, m)
        || (m <= 11 && date.day.d - Gregorian.DaysInMonth(y, m) <= Gregorian.DaysInMonth(y, m + 1)))
    ensures WrappingAdd(date, n).Some? && WrappingAdd(date, n).value.day != date.day ==>
      && WrappingAdd(date, n).value.month.m == m + 1
      && WrappingAdd(date, n).value.day.d == date.day.d - Gregorian.DaysInMonth(y, m)
  {
    assert (date.month.m + n.n - 1) / 12 == k / 12 && (date.month.m + n.n - 1) % 12 == k % 12;
    WrappingAddIsSpilled(date, n, y, m);
  }

  /**
   * Adding no months at all moves the date: 10 July 2000 forms month 14 and
   * panics, 10 March 2000 forms June, and 31 January 2000 forms February
   * and spills two days into March.
   */
  lemma WrappingAddZeroMonths()
    ensures WrappingAdd(FieldDate(2000, Month(7), Day(10)), Months(0)) == None
    ensures WrappingAdd(FieldDate(2000, Month(3), Day(10)), Months(0))
      == Some(FieldDate(2000, Month(6), Day(10)))
    ensures WrappingAdd(FieldDate(2000, Month(1), Day(31)), Months(0))
      == Some(FieldDate(2000, Month(3), Day(2)))
  {
    WrappingAddBuilt(FieldDate(2000, Month(7), Day(10)), Months(0), 6, 2000, 14);
    WrappingAddIsSpilled(FieldDate(2000, Month(3), Day(10)), Months(0), 2000, 6);
    assert LastDayOfMonth(2000, Month(6)).d == 30;
    assert FieldDateNew(2000, 6, 10) == Some(FieldDate(2000, Month(6), Day(10)));
    WrappingAddIsSpilled(FieldDate(2000, Month(1), Day(31)), Months(0), 2000, 2);
    assert LastDayOfMonth(2000, Month(2)).d == 29;
    assert FieldDateNew(2000, 3, 2) == Some(FieldDate(2000, Month(3), Day(2)));
  }

  /**
   * 31 January 2001 plus one month forms March, which has a 31st: nothing
   * spills, and the result is two months on.
   */
  lemma WrappingAddNoSpill()
    ensures WrappingAdd(FieldDate(2001, Month(1), Day(31)), Months(1))
      == Some(FieldDate(2001, Month(3), Day(31)))
  {
    WrappingAddIsSpilled(FieldDate(2001, Month(1), Day(31)), Months(1), 2001, 3);
    assert LastDayOfMonth(2001, Month(3)).d == 31;
    assert FieldDateNew(2001, 3, 31) == Some(FieldDate(2001, Month(3), Day(31)));
  }

  /** `wrapping_sub` ends in the shared last step, looking back and building forward. */
  lemma WrappingSubIsSpilled(date: FieldDate, n: Months, back: u32, built: u32, m: u8)
    requires back == date.year - n.n / 12 && built == date.year + n.n / 12
    requires m == date.month.m + n.n % 12
    requires date.day.d > LastDayOfMonth(back, Month(m)).d ==> m + 1 < U8_LIMIT
    ensures WrappingSub(date, n) == BuildSpilled(back, built, m, date.day.d)
  {
    assert date.year >= n.n / 12 && date.year + n.n / 12 < U32_LIMIT;
  }

  /**
   * When `wrapping_sub` returns, for a month M it forms of at least 1.  The
   * month length is looked up in year `back`, n / 12 years earlier, and the
   * date built in year `built`, n / 12 years later: a date comes out exactly
   * when M is at most 12 and the day, or its surplus over the looked-up
   * length, exists in year `built`; the surplus is then the new day, in
   * month M + 1.
   */
  lemma WrappingSubBuilt(date: FieldDate, n: Months, back: u32, built: u32, m: u8)
    requires back == date.year - n.n / 12 && built == date.year + n.n / 12
    requires 1 <= m && m == date.month.m + n.n % 12
    requires date.day.d > LastDayOfMonth(back, Month(m)).d ==> m + 1 < U8_LIMIT
    ensures WrappingSub(date, n).Some? <==>
      m <= 12 && (if date.day.d <= Gregorian.DaysInMonth(back, m) then date.day.d <= Gregorian.DaysInMonth(built, m)
        else m <= 11 && date.day.d - Gregorian.DaysInMonth(back, m) <= Gregorian.DaysInMonth(built, m + 1))
    ensures WrappingSub(date, n).Some? && WrappingSub(date, n).value.day != date.day ==>
      && WrappingSub(date, n).value.month.m == m + 1
      && WrappingSub(date, n).value.day.d == date.day.d - Gregorian.DaysInMonth(back, m)
  {
    WrappingSubIsSpilled(date, n, back, built, m);
  }
}
