/**
 * The private `dates` module of `src/lib.rs`, an earlier copy of the date
 * code.  Its two conversions are operation for operation those of
 * `src/date/mod.rs` and are modelled once, in `Conversion`; its weekday
 * addition is that of `Dates.WeekdayAddDays`.  What differs is modelled
 * here: the leap-year test and month length take a signed 32-bit year, and
 * the two weekday subtractions add back 6 instead of 7 after wrapping.
 */
module LibDates {
  import opened Ints
  import opened Wrappers
  import opened Dates
  import Gregorian

  /** For a multiple of 100, also a negative one, divisibility by 16 and by 400 coincide. */
  lemma CenturyLeapSigned(y: int)
    ensures y % 100 == 0 ==> (y % 16 == 0 <==> y % 400 == 0)
  {
    if y % 100 == 0 {
      var k := y / 100;
      assert y == 100 * k;
      var q, r := k / 4, k % 4;
      assert y == 400 * q + 100 * r;
      assert y == 16 * (25 * q + 6 * r) + 4 * r;
      if r == 0 {
        assert y % 400 == 0 && y % 16 == 0;
      } else {
        assert 0 < 4 * r < 16;
        assert 0 < 100 * r < 400;
      }
    }
  }

  /** The low bits of the two's-complement pattern are those of the value modulo 4 and 16. */
  lemma Bits32LowBits(y: i32)
    ensures Bits32(y) % 4 == y % 4 && Bits32(y) % 16 == y % 16
  {
    if y < 0 {
      assert Bits32(y) == y + 16 * 0x1000_0000;
    }
  }

  /**
   * The leap-year test on an i32 year: `y % 100` truncates toward zero but is
   * only compared with 0, and `y & mask` reads the two's-complement bits,
   * whose low bits are those of `y` modulo a power of two also for negative
   * years.  So the test is the Gregorian rule for every i32.
   */
  function IsLeapYear(y: i32): (leap: bool)
    ensures leap <==> Gregorian.IsLeap(y)
  {
    var mask := if TruncRem(y, 100) == 0 then 15 else 3;
    var bits := Bits32(y);
    TruncRemZero100(y);
    AndThree(bits);
    AndFifteen(bits);
    Bits32LowBits(y);
    CenturyLeapSigned(y);
    BitAnd(bits, mask) == 0
  }

  /** `last_day_of_month` for an i32 year, sharing the month-length bit formula. */
  function LastDayOfMonth(y: i32, m: Month): (r: Day)
    ensures 1 <= m.m <= 12 ==> r.d == Gregorian.DaysInMonth(y, m.m)
  {
    MonthLengthBitsTable(m.m);
    if m.m == 2 then (if IsLeapYear(y) then Day(29) else Day(28))
    else Day(MonthLengthBits(m.m))
  }

  /** Leap years before year 1 follow the same rule: 0, -4 and -400 are leap years, -100 is not. */
  lemma LeapYearsSigned()
    ensures IsLeapYear(0) && IsLeapYear(-4) && IsLeapYear(-400) && !IsLeapYear(-100)
    ensures LastDayOfMonth(-4, Month(2)) == Day(29) && LastDayOfMonth(-100, Month(2)) == Day(28)
  {
  }

  /** Moving b on by the plain difference a - b reaches a. */
  lemma AddDifference(a: Weekday, b: Weekday, r: nat)
    requires a.Ordinal() >= b.Ordinal() && r == a.Ordinal() - b.Ordinal()
    ensures WeekdayAddDays(b, Days(r)) == a
  {
    var x := WeekdayAddDays(b, Days(r));
    assert x.Ordinal() == a.Ordinal();
    OrdinalInjective(x, a);
  }

  /** Moving b on by a - b + 6 stops one day short of a. */
  lemma AddDifferenceSixShort(a: Weekday, b: Weekday, r: nat)
    requires a.Ordinal() < b.Ordinal() && r == a.Ordinal() - b.Ordinal() + 6
    ensures WeekdayAddDays(b, Days(r)) != a
  {
    var x := WeekdayAddDays(b, Days(r));
    assert x.Ordinal() == (a.Ordinal() + 6) % 7;
  }

  /** Moving b on by a - b + 7 reaches a. */
  lemma AddDifferenceSeven(a: Weekday, b: Weekday, r: nat)
    requires a.Ordinal() < b.Ordinal() && r == a.Ordinal() - b.Ordinal() + 7
    ensures WeekdayAddDays(b, Days(r)) == a
  {
    var y := WeekdayAddDays(b, Days(r));
    assert y.Ordinal() == a.Ordinal();
    OrdinalInjective(y, a);
  }

  /**
   * `Weekday - Weekday` of this copy: when the u32 difference wraps, 6 is
   * added back instead of 7.  The result counts the days from b forward to
   * a exactly when a does not come before b in the week, and falls one
   * short otherwise.
   */
  function WeekdaySub(a: Weekday, b: Weekday): (r: u32)
    ensures r <= 6
    ensures WeekdayAddDays(b, Days(r)) == a <==> a.Ordinal() >= b.Ordinal()
    ensures a.Ordinal() < b.Ordinal() ==> WeekdayAddDays(b, Days(r + 1)) == a
  {
    var days := WrappingSub32(a.Ordinal(), b.Ordinal());
    var r := if days <= 6 then days else WrappingAdd32(days, 6);
    if a.Ordinal() >= b.Ordinal() then
      AddDifference(a, b, r);
      r
    else
      AddDifferenceSixShort(a, b, r);
      AddDifferenceSeven(a, b, r + 1);
      r
  }

  /** Monday minus Saturday is 1 here, 2 in the library's own weekday type. */
  lemma WeekdaySubWrapsBySix()
    ensures WeekdaySub(Monday, Saturday) == 1
    ensures Dates.WeekdaySub(Monday, Saturday) == Days(2)
  {
  }

  /**
   * `Weekday - u32` of this copy: after the wrapped difference 6 is added
   * back, so an offset past the weekday lands one day early, and past six
   * days beyond the weekday `Weekday::from` panics (`None`), except within
   * six of 2^32 above the weekday, where the wrapped difference itself is
   * returned as the weekday.
   */
  function WeekdaySubDays(w: Weekday, n: u32): (r: Option<Weekday>)
    ensures r.Some? <==> n <= w.Ordinal() + 6 || n >= U32_LIMIT + w.Ordinal() - 6
    ensures n <= w.Ordinal() ==> r.Some? && r.value.Ordinal() == w.Ordinal() - n
    ensures w.Ordinal() < n <= w.Ordinal() + 6 ==>
      r.Some? && (r.value.Ordinal() + n - w.Ordinal()) % 7 == 6
    ensures n >= U32_LIMIT + w.Ordinal() - 6 ==> r.Some? && r.value.Ordinal() == w.Ordinal() - n + U32_LIMIT
  {
    var days := WrappingSub32(w.Ordinal(), n);
    var k := if days <= 6 then days else WrappingAdd32(days, 6);
    WeekdayFromU32(k)
  }

  /**
   * Monday minus two days is a Friday here, a Saturday in the library's own
   * weekday type; Sunday minus 2^32 - 1 days is a Monday, not a Thursday.
   */
  lemma WeekdaySubDaysWrapsBySix()
    ensures WeekdaySubDays(Monday, 2) == Some(Friday)
    ensures WeekdaySubDays(Sunday, U32_LIMIT - 1) == Some(Monday)
    ensures Dates.WeekdaySubDays(Monday, Days(2)) == Some(Saturday)
    ensures Dates.WeekdaySubDaysMod(Monday, Days(2)) == Saturday
  {
  }
}
