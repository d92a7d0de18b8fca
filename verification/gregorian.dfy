/**
 * A naive reference model of the proleptic Gregorian calendar, written
 * without any of the tricks of the library: the leap-year rule as three
 * divisibility tests, a table of month lengths, and day counts obtained by
 * adding up year and month lengths one at a time.
 *
 * Day numbers count from 1 March of year 0 (day 0).  A "shifted" year y0
 * therefore runs from 1 March y0 to the end of February y0 + 1, and its
 * months are numbered 3 (March) to 14 (February of y0 + 1), so that the
 * leap day, when there is one, is the last day of the shifted year.
 */
module Gregorian {
  import opened Ints

  /** Every fourth year is a leap year, except centuries not divisible by 400. */
  predicate IsLeap(y: int) {
    (y % 4 == 0 && y % 100 != 0) || y % 400 == 0
  }

  /** Number of days of month m (1 = January) of year y. */
  function DaysInMonth(y: int, m: int): nat
    requires 1 <= m <= 12
  {
    if m == 2 then (if IsLeap(y) then 29 else 28)
    else if m == 4 || m == 6 || m == 9 || m == 11 then 30
    else 31
  }

  /** Length of shifted year y0: it ends with February of calendar year y0 + 1. */
  function ShiftedYearLength(y0: int): nat {
    if IsLeap(y0 + 1) then 366 else 365
  }

  /** Length of shifted month m0 (3..14) of shifted year y0. */
  function ShiftedMonthLength(y0: int, m0: int): nat
    requires 3 <= m0 <= 14
  {
    if m0 <= 12 then DaysInMonth(y0, m0) else DaysInMonth(y0 + 1, m0 - 12)
  }

  /**
   * Days from the start of a shifted year to the start of its month m0.
   * The months before m0 never include February, so the year does not matter.
   */
  function DaysBeforeShiftedMonth(m0: int): nat
    requires 3 <= m0 <= 14
  {
    if m0 == 3 then 0 else DaysBeforeShiftedMonth(m0 - 1) + ShiftedMonthLength(0, m0 - 1)
  }

  /** Day number of 1 March of year y0: the lengths of all earlier shifted years. */
  function YearStart(y0: nat): nat {
    if y0 == 0 then 0 else YearStart(y0 - 1) + ShiftedYearLength(y0 - 1)
  }

  /** The dates a day number can name: from 0000-03-01 on. */
  predicate OnOrAfterEpoch(y: int, m: int) {
    y >= 0 && 1 <= m <= 12 && !(y == 0 && m <= 2)
  }

  /** A calendar date with an existing day of its month. */
  predicate IsDate(y: int, m: int, d: int) {
    OnOrAfterEpoch(y, m) && 1 <= d <= DaysInMonth(y, m)
  }

  /** The shifted year holding month m of calendar year y. */
  function ShiftedYearOf(y: int, m: int): int {
    if m <= 2 then y - 1 else y
  }

  /** The shifted month number (3..14) of calendar month m. */
  function ShiftedMonthOf(m: int): int {
    if m <= 2 then m + 12 else m
  }

  /** Days from 0000-03-01 to the date y-m-d. */
  function RataDie(y: int, m: int, d: int): int
    requires OnOrAfterEpoch(y, m)
  {
    YearStart(ShiftedYearOf(y, m)) + DaysBeforeShiftedMonth(ShiftedMonthOf(m)) + d - 1
  }

  // ---------------------------------------------------------------------
  // Properties of the reference calendar

  /** The familiar closed form of the day count: 365 days a year plus the leap days. */
  lemma {:induction false} YearStartClosedForm(y0: nat)
    ensures YearStart(y0) == 365 * y0 + y0 / 4 - y0 / 100 + y0 / 400
  {
    if y0 > 0 {
      YearStartClosedForm(y0 - 1);
      var y := y0 - 1;
      DivSucc(y, 4);
      DivSucc(y, 100);
      DivSucc(y, 400);
      CenturyDivides(y0);
      assert ShiftedYearLength(y) == 365 + (if IsLeap(y0) then 1 else 0);
    }
  }

  /** A multiple of 400 is one of 100, and a multiple of 100 one of 4. */
  lemma CenturyDivides(n: nat)
    ensures n % 400 == 0 ==> n % 100 == 0
    ensures n % 100 == 0 ==> n % 4 == 0
  {
    if n % 400 == 0 {
      DivModOf(n, 100, 4 * (n / 400), 0);
    }
    if n % 100 == 0 {
      DivModOf(n, 4, 25 * (n / 100), 0);
    }
  }

  /** Later shifted years start after the whole of every earlier one. */
  lemma {:induction false} YearStartIncreasing(a: nat, b: nat)
    requires a < b
    ensures YearStart(a) + ShiftedYearLength(a) <= YearStart(b)
    decreases b
  {
    if a + 1 < b {
      YearStartIncreasing(a, b - 1);
    }
  }

  /** Every shifted year has at least 365 days. */
  lemma {:induction false} YearStartAtLeast(y0: nat)
    ensures YearStart(y0) >= 365 * y0
  {
    if y0 > 0 {
      YearStartAtLeast(y0 - 1);
    }
  }

  /** The month lengths before February are those of the calendar, whatever the year. */
  lemma ShiftedMonthLengthFixed(y0: int, m0: int)
    requires 3 <= m0 <= 13
    ensures ShiftedMonthLength(y0, m0) == ShiftedMonthLength(0, m0)
  {
  }

  /** Month offsets within a shifted year. */
  lemma DaysBeforeShiftedMonthTable(m0: int)
    requires 3 <= m0 <= 14
    ensures DaysBeforeShiftedMonth(m0)
      == [0, 31, 61, 92, 122, 153, 184, 214, 245, 275, 306, 337][m0 - 3]
  {
  }

  /** The months of a shifted year exactly fill it. */
  lemma {:induction false} MonthsFillShiftedYear(y0: int)
    ensures DaysBeforeShiftedMonth(14) + ShiftedMonthLength(y0, 14) == ShiftedYearLength(y0)
  {
    DaysBeforeShiftedMonthTable(14);
  }

  /** A later month starts after the whole of every earlier month of the same shifted year. */
  lemma {:induction false} ShiftedMonthIncreasing(y0: int, a: int, b: int)
    requires 3 <= a < b <= 14
    ensures DaysBeforeShiftedMonth(a) + ShiftedMonthLength(y0, a) <= DaysBeforeShiftedMonth(b)
    decreases b
  {
    ShiftedMonthLengthFixed(y0, a);
    if a + 1 < b {
      ShiftedMonthIncreasing(y0, a, b - 1);
    }
  }

  /** Every day of a month lies inside its shifted year. */
  lemma DayWithinShiftedYear(y0: int, m0: int, d0: int)
    requires 3 <= m0 <= 14 && 0 <= d0 < ShiftedMonthLength(y0, m0)
    ensures DaysBeforeShiftedMonth(m0) + d0 < ShiftedYearLength(y0)
  {
    MonthsFillShiftedYear(y0);
    if m0 < 14 {
      ShiftedMonthIncreasing(y0, m0, 14);
    }
  }

  /** The shifted month and day of the month are determined by the day of the shifted year. */
  lemma ShiftedDayUnique(y0: int, m0: int, d0: int, m1: int, d1: int)
    requires 3 <= m0 <= 14 && 0 <= d0 < ShiftedMonthLength(y0, m0)
    requires 3 <= m1 <= 14 && 0 <= d1 < ShiftedMonthLength(y0, m1)
    requires DaysBeforeShiftedMonth(m0) + d0 == DaysBeforeShiftedMonth(m1) + d1
    ensures m0 == m1 && d0 == d1
  {
    if m0 < m1 {
      ShiftedMonthIncreasing(y0, m0, m1);
    } else if m1 < m0 {
      ShiftedMonthIncreasing(y0, m1, m0);
    }
  }

  /** The shifted year is determined by a day number and an offset within the year. */
  lemma YearStartUnique(a: nat, r: nat, b: nat, s: nat)
    requires r < ShiftedYearLength(a) && s < ShiftedYearLength(b)
    requires YearStart(a) + r == YearStart(b) + s
    ensures a == b && r == s
  {
    if a < b {
      YearStartIncreasing(a, b);
    } else if b < a {
      YearStartIncreasing(b, a);
    }
  }

  /** A calendar month keeps its length when counted in its shifted year. */
  lemma ShiftedMonthLengthOf(y: int, m: int)
    requires 1 <= m <= 12
    ensures 3 <= ShiftedMonthOf(m) <= 14
    ensures ShiftedMonthLength(ShiftedYearOf(y, m), ShiftedMonthOf(m)) == DaysInMonth(y, m)
  {
  }

  /** Distinct dates have distinct day numbers. */
  lemma RataDieInjective(y: int, m: int, d: int, y': int, m': int, d': int)
    requires IsDate(y, m, d) && IsDate(y', m', d')
    requires RataDie(y, m, d) == RataDie(y', m', d')
    ensures y == y' && m == m' && d == d'
  {
    var y0, m0 := ShiftedYearOf(y, m), ShiftedMonthOf(m);
    var y0', m0' := ShiftedYearOf(y', m'), ShiftedMonthOf(m');
    ShiftedMonthLengthOf(y, m);
    ShiftedMonthLengthOf(y', m');
    DayWithinShiftedYear(y0, m0, d - 1);
    DayWithinShiftedYear(y0', m0', d' - 1);
    YearStartUnique(y0, DaysBeforeShiftedMonth(m0) + d - 1, y0', DaysBeforeShiftedMonth(m0') + d' - 1);
    ShiftedDayUnique(y0, m0, d - 1, m0', d' - 1);
  }

  /** The last day of a month is followed by the first day of the next month. */
  lemma RataDieNextMonth(y: int, m: int)
    requires OnOrAfterEpoch(y, m)
    ensures m < 12 ==> RataDie(y, m + 1, 1) == RataDie(y, m, DaysInMonth(y, m)) + 1
    ensures m == 12 ==> RataDie(y + 1, 1, 1) == RataDie(y, 12, 31) + 1
  {
    if m == 2 {
      assert YearStart(y) == YearStart(y - 1) + ShiftedYearLength(y - 1);
      DaysBeforeShiftedMonthTable(14);
    } else if m == 1 {
      DaysBeforeShiftedMonthTable(13);
      DaysBeforeShiftedMonthTable(14);
    }
  }

  /** The calendar date after y-m-d. */
  function NextDate(y: int, m: int, d: int): (next: (int, int, int))
    requires IsDate(y, m, d)
    ensures IsDate(next.0, next.1, next.2)
    ensures RataDie(next.0, next.1, next.2) == RataDie(y, m, d) + 1
  {
    RataDieNextMonth(y, m);
    if d < DaysInMonth(y, m) then (y, m, d + 1)
    else if m < 12 then (y, m + 1, 1)
    else (y + 1, 1, 1)
  }

  /** The only date one day after y-m-d is its next date. */
  lemma NextDateUnique(y: int, m: int, d: int, y': int, m': int, d': int)
    requires IsDate(y, m, d) && IsDate(y', m', d')
    requires RataDie(y', m', d') == RataDie(y, m, d) + 1
    ensures (y', m', d') == NextDate(y, m, d)
  {
    var next := NextDate(y, m, d);
    RataDieInjective(y', m', d', next.0, next.1, next.2);
  }

  /** The month after month m of year y. */
  function NextMonth(y: int, m: int): (int, int) {
    if m == 12 then (y + 1, 1) else (y, m + 1)
  }

  /**
   * Day d of month m of year y, where a day past the end of the month
   * continues into the month after: the date d - 1 days after the first of
   * the month, for any d up to 31.
   */
  function SpillDate(y: int, m: int, d: int): (r: (int, int, int))
    requires 1 <= m <= 12 && 1 <= d <= 31
    ensures 1 <= r.1 <= 12 && 1 <= r.2 <= DaysInMonth(r.0, r.1)
    ensures r == (y, m, d) <==> d <= DaysInMonth(y, m)
    ensures r != (y, m, d) ==> (r.0, r.1) == NextMonth(y, m) && r.2 == d - DaysInMonth(y, m)
    ensures OnOrAfterEpoch(y, m) ==>
      && OnOrAfterEpoch(r.0, r.1)
      && RataDie(r.0, r.1, r.2) == RataDie(y, m, 1) + d - 1
  {
    var eom := DaysInMonth(y, m);
    if d <= eom then (y, m, d)
    else
      var (y', m') := NextMonth(y, m);
      if OnOrAfterEpoch(y, m) then
        RataDieNextMonth(y, m);
        (y', m', d - eom)
      else
        (y', m', d - eom)
  }
}
