/**
 * Arithmetic on calendar dates in `src/date/mod.rs`: adding and subtracting
 * days by a detour through the day number, the weekday of a date, and the
 * two month operations `wrapping_add` and `wrapping_sub`.
 *
 * The month operations are modelled as written, which is not what their
 * names promise: `wrapping_add` adds the month number a second time and
 * `wrapping_sub` moves forward.  `AddMonths` and `SubMonths` are the
 * calendar-correct operations the code evidently aims at, with the same
 * treatment of a day past the end of the target month (the surplus days
 * spill into the following month).
 */
module DateArith {
  import opened Ints
  import opened Wrappers
  import opened Dates
  import opened Conversion
  import Gregorian

  // ---------------------------------------------------------------------
  // Dates plus and minus days

  /**
   * `FieldDate + Days`: to a day number, add, and back.  The sum must fit the
   * u32 of the day number and leave `4 * rd + 3` of the inverse in range.
   */
  function FieldAddDays(date: FieldDate, n: Days): (r: FieldDate)
    requires ToSerialDefined(date)
    requires 4 * (ToSerial(date).rd + n.n) + 3 < U32_LIMIT
    ensures Valid(r) && Gregorian.OnOrAfterEpoch(r.year, r.month.m)
    ensures Gregorian.RataDie(r.year, r.month.m, r.day.d) == ToSerial(date).rd + n.n
    ensures Valid(date) ==>
      Gregorian.RataDie(r.year, r.month.m, r.day.d) == Gregorian.RataDie(date.year, date.month.m, date.day.d) + n.n
  {
    ToSerialIsRataDie(date);
    ToField(SerialAddDays(ToSerial(date), n))
  }

  /** `FieldDate - Days`: the day number must not go below 0. */
  function FieldSubDays(date: FieldDate, n: Days): (r: FieldDate)
    requires ToSerialDefined(date)
    requires ToSerial(date).rd >= n.n
    ensures Valid(r) && Gregorian.OnOrAfterEpoch(r.year, r.month.m)
    ensures Gregorian.RataDie(r.year, r.month.m, r.day.d) + n.n == ToSerial(date).rd
    ensures Valid(date) ==>
      Gregorian.RataDie(r.year, r.month.m, r.day.d) + n.n == Gregorian.RataDie(date.year, date.month.m, date.day.d)
  {
    ToSerialIsRataDie(date);
    ToField(SerialSubDays(ToSerial(date), n))
  }

  /**
   * Subtracting the days just added gives back the date, while the day
   * number in between stays below the round-trip limit.
   */
  lemma FieldAddSubDays(date: FieldDate, n: Days)
    requires Valid(date) && ToSerialDefined(date)
    requires ToSerial(date).rd + n.n < SERIAL_ROUND_TRIP_LIMIT
    ensures ToSerialDefined(FieldAddDays(date, n))
    ensures ToSerial(FieldAddDays(date, n)).rd >= n.n
    ensures FieldSubDays(FieldAddDays(date, n), n) == date
  {
    var s := ToSerial(date);
    var t := SerialAddDays(s, n);
    var r := ToField(t);
    assert FieldAddDays(date, n) == r;
    SerialRoundTrip(t);
    assert ToSerial(r) == t;
    assert SerialSubDays(t, n) == s;
    assert FieldSubDays(r, n) == ToField(s);
    FieldRoundTrip(date);
  }

  /** Adding one day gives the next calendar date, across month and year ends. */
  lemma FieldAddOneDay(date: FieldDate)
    requires Valid(date) && ToSerialDefined(date)
    requires 4 * (ToSerial(date).rd + 1) + 3 < U32_LIMIT
    ensures var next := Gregorian.NextDate(date.year, date.month.m, date.day.d);
      && FieldAddDays(date, Days(1)).year == next.0
      && FieldAddDays(date, Days(1)).month.m == next.1
      && FieldAddDays(date, Days(1)).day.d == next.2
  {
    var r := FieldAddDays(date, Days(1));
    ValidIsDate(date);
    ValidIsDate(r);
    Gregorian.NextDateUnique(date.year, date.month.m, date.day.d, r.year, r.month.m, r.day.d);
  }

  // ---------------------------------------------------------------------
  // The weekday of a date

  /** `FieldDate::to_weekday`: the weekday of the date's day number. */
  function FieldWeekday(date: FieldDate): Weekday
    requires ToSerialDefined(date)
  {
    WeekdayOfSerial(ToSerial(date))
  }

  /** The weekday of a date is three days on from its day number, counted modulo 7. */
  lemma FieldWeekdayOrdinal(date: FieldDate)
    requires ToSerialDefined(date)
    ensures (FieldWeekday(date).Ordinal() - ToSerial(date).rd) % 7 == 3
  {
    var s := ToSerial(date);
    assert FieldWeekday(date) == WeekdayOfSerial(s);
  }

  /** The day after a date falls on the next weekday. */
  lemma FieldWeekdayNextDay(date: FieldDate)
    requires Valid(date) && ToSerialDefined(date)
    requires ToSerial(date).rd + 1 < SERIAL_ROUND_TRIP_LIMIT
    ensures ToSerialDefined(FieldAddDays(date, Days(1)))
    ensures FieldWeekday(FieldAddDays(date, Days(1))) == WeekdayAddDays(FieldWeekday(date), Days(1))
  {
    var s := SerialAddDays(ToSerial(date), Days(1));
    SerialRoundTrip(s);
    WeekdayOfSerialAdd(ToSerial(date), Days(1));
  }

  /**
   * 1 January 1970 was a Thursday, with a Wednesday before and a Friday
   * after it; the weekday is taken from the date's day number, as
   * `SerialDate::to_weekday` does.
   */
  lemma UnixEpochWeekday()
    ensures WeekdayOfSerial(ToSerial(FieldDate(1970, Month(1), Day(1)))) == Thursday
    ensures WeekdaySubDays(Thursday, Days(1)) == Some(Wednesday)
    ensures WeekdayAddDays(Thursday, Days(1)) == Friday
  {
    UnixEpochSerial();
    assert WeekdayOfSerial(SerialDate(719468)) == Thursday;
  }

  // ---------------------------------------------------------------------
  // Months as written

  /** Months since January of year 0. */
  function MonthIndex(date: FieldDate): int {
    12 * date.year + date.month.m - 1
  }

  /**
   * The last step shared by `wrapping_add` and `wrapping_sub`: the month
   * length `eom` of month m is looked up in year `back`; a day up to `eom`
   * is kept in month m, a larger one moves its surplus into month m + 1,
   * and `FieldDate::new` builds the date in year `built`.  For a month of at
   * least 1 a date comes out exactly when m is at most 12 and the day, or
   * its surplus, exists in year `built`.
   */
  function BuildSpilled(back: u32, built: u32, m: u8, d: u8): (r: Option<FieldDate>)
    requires d > LastDayOfMonth(back, Month(m)).d ==> m + 1 < U8_LIMIT
    ensures m >= 1 ==> (r.Some? <==>
      m <= 12 && (if d <= Gregorian.DaysInMonth(back, m) then d <= Gregorian.DaysInMonth(built, m)
        else m <= 11 && d - Gregorian.DaysInMonth(back, m) <= Gregorian.DaysInMonth(built, m + 1)))
    ensures r.Some? ==> r.value.year == built && (Valid(r.value) || r.value.day.d == 0)
    ensures r.Some? && r.value.day.d == d ==> r.value.month.m == m
    ensures r.Some? && r.value.day.d != d ==> r.value.month.m == m + 1
    ensures m >= 1 && r.Some? && r.value.day.d != d ==> m <= 11 && r.value.day.d == d - Gregorian.DaysInMonth(back, m)
  {
    var eom := LastDayOfMonth(back, Month(m)).d;
    if d > eom then FieldDateNew(built, m + 1, d - eom) else FieldDateNew(built, m, d)
  }

  /**
   * `FieldDate::wrapping_add` as written.  It splits `m + n - 1` into years
   * and a month number 1..12, but then adds that month number to the
   * date's month; a day past the end of the month so formed spills into the
   * month after.  `FieldDate::new` panics (`None`) when the month is not
   * 1..12 or the day does not exist.  The u32 and u8 additions must not
   * overflow.
   */
  function WrappingAdd(date: FieldDate, n: Months): (r: Option<FieldDate>)
    requires 1 <= date.month.m + n.n < U32_LIMIT
    requires var k := date.month.m + n.n - 1;
      date.year + k / 12 < U32_LIMIT && date.month.m + k % 12 + 1 < U8_LIMIT
    requires var k := date.month.m + n.n - 1;
      (date.day.d > LastDayOfMonth(date.year + k / 12, Month(date.month.m + k % 12 + 1)).d
       ==> date.month.m + k % 12 + 2 < U8_LIMIT)
    ensures r.Some? ==> Valid(r.value) || r.value.day.d == 0
    ensures r.Some? ==> r.value.year == date.year + (date.month.m + n.n - 1) / 12
    ensures r.Some? && r.value.day == date.day ==>
      MonthIndex(r.value) == MonthIndex(date) + n.n + date.month.m
    ensures r.Some? && r.value.day != date.day ==>
      MonthIndex(r.value) == MonthIndex(date) + n.n + date.month.m + 1
  {
    var k := date.month.m + n.n - 1;
    var yAdd, mAdd := k / 12, k % 12 + 1;
    BuildSpilled(date.year + yAdd, date.year + yAdd, date.month.m + mAdd, date.day.d)
  }

  /** One month after 15 January 2000 comes out as 15 March. */
  lemma WrappingAddSkipsMonth()
    ensures WrappingAdd(FieldDate(2000, Month(1), Day(15)), Months(1))
      == Some(FieldDate(2000, Month(3), Day(15)))
  {
    assert (1 + 1 - 1) / 12 == 0 && (1 + 1 - 1) % 12 + 1 == 2;
    assert LastDayOfMonth(2000, Month(3)).d == 31;
    assert FieldDateNew(2000, 3, 15) == Some(FieldDate(2000, Month(3), Day(15)));
  }

  /** One month after 1 December 2000 panics: the month comes out as 13. */
  lemma WrappingAddPanics()
    ensures WrappingAdd(FieldDate(2000, Month(12), Day(1)), Months(1)) == None
  {
    assert (12 + 1 - 1) / 12 == 1 && (12 + 1 - 1) % 12 + 1 == 1;
    assert LastDayOfMonth(2001, Month(13)).d == MonthLengthBits(13);
    assert FieldDateNew(2001, 13, 1) == None;
  }

  /** The intended results: one month after 15 January 2000 is 15 February, after 1 December 2000 it is 1 January 2001. */
  lemma AddMonthsExamples()
    ensures AddMonths(FieldDate(2000, Month(1), Day(15)), Months(1)) == FieldDate(2000, Month(2), Day(15))
    ensures AddMonths(FieldDate(2000, Month(12), Day(1)), Months(1)) == FieldDate(2001, Month(1), Day(1))
  {
    assert Gregorian.DaysInMonth(2000, 2) == 29;
    AddMonthsKeepsDay(FieldDate(2000, Month(1), Day(15)), Months(1), 2000, 2);
    AddMonthsKeepsDay(FieldDate(2000, Month(12), Day(1)), Months(1), 2001, 1);
  }

  /** When the target month has the day, adding months keeps the day and moves year and month. */
  lemma AddMonthsKeepsDay(date: FieldDate, n: Months, y: u32, m: u8)
    requires Valid(date) && MonthIndex(date) + n.n + 1 < 12 * U32_LIMIT
    requires 1 <= m <= 12 && MonthIndex(date) + n.n == 12 * y + m - 1
    requires date.day.d <= Gregorian.DaysInMonth(y, m)
    ensures AddMonths(date, n) == FieldDate(y, Month(m), date.day)
  {
    var r := AddMonths(date, n);
    var k := MonthIndex(date) + n.n;
    assert k / 12 == y && k % 12 + 1 == m;
    assert MonthIndex(r) == k && r.day == date.day;
    assert r.year == y && r.month.m == m;
  }

  /**
   * `FieldDate::wrapping_sub` as written: the month and year parts of n are
   * added, not subtracted; only the month length is looked up n / 12 years
   * back.  The u32 subtraction and additions and the u8 additions must not
   * overflow.
   */
  function WrappingSub(date: FieldDate, n: Months): (r: Option<FieldDate>)
    requires date.year >= n.n / 12 && date.year + n.n / 12 < U32_LIMIT
    requires date.month.m + n.n % 12 < U8_LIMIT
    requires date.day.d > LastDayOfMonth(date.year - n.n / 12, Month(date.month.m + n.n % 12)).d ==>
      date.month.m + n.n % 12 + 1 < U8_LIMIT
    ensures r.Some? ==> Valid(r.value) || r.value.day.d == 0
    ensures r.Some? ==> r.value.year == date.year + n.n / 12
    ensures r.Some? && r.value.day == date.day ==> MonthIndex(r.value) == MonthIndex(date) + n.n
    ensures r.Some? && r.value.day != date.day ==> MonthIndex(r.value) == MonthIndex(date) + n.n + 1
  {
    var yAdd, mAdd := n.n / 12, n.n % 12;
    BuildSpilled(date.year - yAdd, date.year + yAdd, date.month.m + mAdd, date.day.d)
  }

  /** One month before 10 May 2000 comes out as 10 June. */
  lemma WrappingSubMovesForward()
    ensures WrappingSub(FieldDate(2000, Month(5), Day(10)), Months(1))
      == Some(FieldDate(2000, Month(6), Day(10)))
  {
    assert 1 / 12 == 0 && 1 % 12 == 1;
    assert LastDayOfMonth(2000, Month(6)).d == 30;
    assert FieldDateNew(2000, 6, 10) == Some(FieldDate(2000, Month(6), Day(10)));
  }

  /**
   * Thirteen months before 29 January 2001: the length of February is taken
   * from the leap year 2000 but the date is built in 2002, which has no
   * 29 February, and `FieldDate::new` panics.
   */
  lemma WrappingSubPanics()
    ensures WrappingSub(FieldDate(2001, Month(1), Day(29)), Months(13)) == None
  {
    assert 13 / 12 == 1 && 13 % 12 == 1;
    assert Gregorian.IsLeap(2000) && !Gregorian.IsLeap(2002);
    assert LastDayOfMonth(2000, Month(2)).d == 29;
    assert FieldDateNew(2002, 2, 29) == None;
  }

  /** The intended results: one month before 10 May 2000 is 10 April, thirteen months before 29 January 2001 is 29 December 1999. */
  lemma SubMonthsExamples()
    ensures SubMonths(FieldDate(2000, Month(5), Day(10)), Months(1)) == FieldDate(2000, Month(4), Day(10))
    ensures SubMonths(FieldDate(2001, Month(1), Day(29)), Months(13)) == FieldDate(1999, Month(12), Day(29))
  {
    assert MonthIndex(FieldDate(2000, Month(5), Day(10))) - 1 == 24003;
    assert 24003 / 12 == 2000 && 24003 % 12 == 3;
    assert Gregorian.DaysInMonth(2000, 4) == 30;
    assert MonthIndex(FieldDate(2001, Month(1), Day(29))) - 13 == 23999;
    assert 23999 / 12 == 1999 && 23999 % 12 == 11;
    assert Gregorian.DaysInMonth(1999, 12) == 31;
  }

  // ---------------------------------------------------------------------
  // Months, calendar-correct

  /** The month index counts months: index k + 1 names the month after index k. */
  lemma NextMonthIndex(k: nat)
    ensures Gregorian.NextMonth(k / 12, k % 12 + 1) == ((k + 1) / 12, (k + 1) % 12 + 1)
  {
  }

  /**
   * Day d of the month with index k; when that month is too short, the
   * surplus days continue into the month after, so that the result is always
   * d - 1 days after the first of month k.
   */
  function DayInMonthIndex(k: nat, d: u8): (r: FieldDate)
    requires 1 <= d <= 31
    requires k / 12 < U32_LIMIT
    requires d > Gregorian.DaysInMonth(k / 12, k % 12 + 1) ==> (k + 1) / 12 < U32_LIMIT
    ensures Valid(r)
    ensures MonthIndex(r) == k <==> d <= Gregorian.DaysInMonth(k / 12, k % 12 + 1)
    ensures MonthIndex(r) != k ==> MonthIndex(r) == k + 1 && r.day.d == d - Gregorian.DaysInMonth(k / 12, k % 12 + 1)
  {
    var t := Gregorian.SpillDate(k / 12, k % 12 + 1, d);
    NextMonthIndex(k);
    var r := FieldDate(t.0, Month(t.1), Day(t.2));
    ValidIsDate(r);
    r
  }

  /** Day d of month k, spilled over or not, is d - 1 days after the first of month k. */
  lemma DayInMonthIndexRataDie(k: nat, d: u8)
    requires 1 <= d <= 31 && k >= 2
    requires k / 12 < U32_LIMIT
    requires d > Gregorian.DaysInMonth(k / 12, k % 12 + 1) ==> (k + 1) / 12 < U32_LIMIT
    ensures var r := DayInMonthIndex(k, d);
      && Gregorian.OnOrAfterEpoch(r.year, r.month.m)
      && Gregorian.RataDie(r.year, r.month.m, r.day.d) == Gregorian.RataDie(k / 12, k % 12 + 1, 1) + d - 1
  {
    var t := Gregorian.SpillDate(k / 12, k % 12 + 1, d);
    assert DayInMonthIndex(k, d) == FieldDate(t.0, Month(t.1), Day(t.2));
  }

  /** A valid date is the day of its month index. */
  lemma MonthIndexDate(date: FieldDate)
    requires Valid(date)
    ensures MonthIndex(date) >= 0
    ensures DayInMonthIndex(MonthIndex(date), date.day.d) == date
  {
    ValidIsDate(date);
    var k := MonthIndex(date);
    assert k == 12 * date.year + (date.month.m - 1) && 0 <= date.month.m - 1 < 12;
    assert k / 12 == date.year && k % 12 + 1 == date.month.m;
  }

  /** `wrapping_add` as intended: n months later, surplus days spilling over. */
  function AddMonths(date: FieldDate, n: Months): (r: FieldDate)
    requires Valid(date)
    requires MonthIndex(date) + n.n + 1 < 12 * U32_LIMIT
    ensures Valid(r)
    ensures var k := MonthIndex(date) + n.n;
      MonthIndex(r) == k <==> date.day.d <= Gregorian.DaysInMonth(k / 12, k % 12 + 1)
    ensures MonthIndex(r) == MonthIndex(date) + n.n ==> r.day == date.day
    ensures var k := MonthIndex(date) + n.n;
      MonthIndex(r) != k ==> MonthIndex(r) == k + 1 && r.day.d == date.day.d - Gregorian.DaysInMonth(k / 12, k % 12 + 1)
  {
    ValidIsDate(date);
    DayInMonthIndex(MonthIndex(date) + n.n, date.day.d)
  }

  /** `wrapping_sub` as intended: n months earlier, surplus days spilling over. */
  function SubMonths(date: FieldDate, n: Months): (r: FieldDate)
    requires Valid(date)
    requires MonthIndex(date) >= n.n
    ensures Valid(r)
    ensures var k := MonthIndex(date) - n.n;
      MonthIndex(r) == k <==> date.day.d <= Gregorian.DaysInMonth(k / 12, k % 12 + 1)
    ensures MonthIndex(r) == MonthIndex(date) - n.n ==> r.day == date.day
    ensures var k := MonthIndex(date) - n.n;
      MonthIndex(r) != k ==> MonthIndex(r) == k + 1 && r.day.d == date.day.d - Gregorian.DaysInMonth(k / 12, k % 12 + 1)
  {
    ValidIsDate(date);
    DayInMonthIndex(MonthIndex(date) - n.n, date.day.d)
  }

  /** Adding no months changes nothing. */
  lemma AddMonthsZero(date: FieldDate)
    requires Valid(date) && MonthIndex(date) + 1 < 12 * U32_LIMIT
    ensures AddMonths(date, Months(0)) == date
    ensures SubMonths(date, Months(0)) == date
  {
    MonthIndexDate(date);
  }

  /** Every month has at least 28 days. */
  lemma DaysInMonthAtLeast28(y: int, m: int)
    requires 1 <= m <= 12
    ensures Gregorian.DaysInMonth(y, m) >= 28
  {
  }

  /** For a day every month has, subtracting the months just added gives back the date. */
  lemma AddSubMonths(date: FieldDate, n: Months)
    requires Valid(date) && date.day.d <= 28
    requires MonthIndex(date) + n.n + 1 < 12 * U32_LIMIT
    ensures SubMonths(AddMonths(date, n), n) == date
  {
    var k := MonthIndex(date) + n.n;
    DaysInMonthAtLeast28(k / 12, k % 12 + 1);
    MonthIndexDate(date);
  }

  /** For a day every month has, adding the months just subtracted gives back the date. */
  lemma SubAddMonths(date: FieldDate, n: Months)
    requires Valid(date) && date.day.d <= 28
    requires MonthIndex(date) >= n.n && MonthIndex(date) + 1 < 12 * U32_LIMIT
    ensures AddMonths(SubMonths(date, n), n) == date
  {
    var k := MonthIndex(date) - n.n;
    DaysInMonthAtLeast28(k / 12, k % 12 + 1);
    MonthIndexDate(date);
  }

  /** For a day every month has, adding a months and then b months is adding a + b months. */
  lemma AddMonthsAdd(date: FieldDate, a: Months, b: Months)
    requires Valid(date) && date.day.d <= 28
    requires MonthIndex(date) + a.n + b.n + 1 < 12 * U32_LIMIT
    ensures a.n + b.n < U32_LIMIT ==> AddMonths(AddMonths(date, a), b) == AddMonths(date, Months(a.n + b.n))
  {
    var k1 := MonthIndex(date) + a.n;
    var y1, m1 := k1 / 12, k1 % 12 + 1;
    DaysInMonthAtLeast28(y1, m1);
    AddMonthsKeepsDay(date, a, y1, m1);
    if a.n + b.n < U32_LIMIT {
      var k2 := k1 + b.n;
      var y2, m2 := k2 / 12, k2 % 12 + 1;
      DaysInMonthAtLeast28(y2, m2);
      AddMonthsKeepsDay(FieldDate(y1, Month(m1), date.day), b, y2, m2);
      AddMonthsKeepsDay(date, Months(a.n + b.n), y2, m2);
    }
  }

  /** The last day of January plus a month spills three days into March. */
  lemma AddMonthsSpills()
    ensures AddMonths(FieldDate(2001, Month(1), Day(31)), Months(1)) == FieldDate(2001, Month(3), Day(3))
  {
    assert MonthIndex(FieldDate(2001, Month(1), Day(31))) + 1 == 24013;
    assert 24013 / 12 == 2001 && 24013 % 12 == 1;
    assert 24014 / 12 == 2001 && 24014 % 12 == 2;
    assert Gregorian.DaysInMonth(2001, 2) == 28;
  }
}
