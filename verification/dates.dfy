/**
 * The value types of `src/date/mod.rs` and the operations on them that need
 * no conversion between calendar fields and day numbers: the leap-year test,
 * the month length, checked construction of months and dates, weekdays and
 * their arithmetic, and adding or subtracting days to a day number.
 *
 * The library is generic over integer widths; this model fixes the width
 * the library instantiates, u32 for years and day numbers and u8 for months
 * and days of the month.
 */
module Dates {
  import opened Ints
  import opened Wrappers
  import Gregorian

  /** A day number: days since 0000-03-01. */
  datatype SerialDate = SerialDate(rd: u32)

  /** A day of the month; the type itself admits any u8. */
  datatype Day = Day(d: u8)

  /** A month; `Month(m)` can be built directly with any u8, `MonthTryFrom` checks. */
  datatype Month = Month(m: u8)

  datatype FieldDate = FieldDate(year: u32, month: Month, day: Day)

  /** The `period::Days<u32>` and `period::Months<u32>` durations used by the date code. */
  datatype Days = Days(n: u32)
  datatype Months = Months(n: u32)

  /** The error returned for a month number outside 1..12. */
  datatype MonthOutOfRange = MonthOutOfRange

  // ---------------------------------------------------------------------
  // Leap years and month lengths

  /**
   * The leap-year test by bit masks: a year is a leap year when its low two
   * bits are clear, or, for a multiple of 100, its low four bits.
   */
  function IsLeapYear(y: u32): (leap: bool)
    ensures leap <==> Gregorian.IsLeap(y)
  {
    var mask := if y % 100 == 0 then 15 else 3;
    AndThree(y);
    AndFifteen(y);
    CenturyLeap(y);
    BitAnd(y, mask) == 0
  }

  /** For a multiple of 100, divisibility by 16 and by 400 coincide. */
  lemma CenturyLeap(y: nat)
    ensures y % 100 == 0 ==> (y % 16 == 0 <==> y % 400 == 0)
  {
    if y % 100 == 0 {
      var q, r := y / 400, y % 400;
      assert y == 400 * q + r;
      assert r == 0 || r == 100 || r == 200 || r == 300;
      assert y == 16 * (25 * q) + r;
      if r == 0 {
        assert y % 16 == 0;
      } else if r == 100 {
        assert y == 16 * (25 * q + 6) + 4;
      } else if r == 200 {
        assert y == 16 * (25 * q + 12) + 8;
      } else {
        assert y == 16 * (25 * q + 18) + 12;
      }
    }
  }

  /** `(m ^ (m >> 3)) | 30` on a u8 (`m >> 3` is `m / 8`). */
  function MonthLengthBits(m: u8): u8
  {
    BitXorBound(m, m / 8, 8);
    BitOrBound(BitXor(m, m / 8), 30, 8);
    BitOr(BitXor(m, m / 8), 30)
  }

  /** Before August `m >> 3` is 0, and only the low bit of m survives the `| 30`. */
  lemma MonthLengthBitsEarly()
    ensures MonthLengthBits(1) == 31 && MonthLengthBits(3) == 31 && MonthLengthBits(4) == 30
    ensures MonthLengthBits(5) == 31 && MonthLengthBits(6) == 30 && MonthLengthBits(7) == 31
  {
    assert BitOr(1, 30) == 31 && BitOr(3, 30) == 31 && BitOr(4, 30) == 30;
    assert BitOr(5, 30) == 31 && BitOr(6, 30) == 30 && BitOr(7, 30) == 31;
  }

  /** From August on `m >> 3` is 1, which flips the low bit of m. */
  lemma MonthLengthBitsLate()
    ensures MonthLengthBits(8) == 31 && MonthLengthBits(9) == 30 && MonthLengthBits(10) == 31
    ensures MonthLengthBits(11) == 30 && MonthLengthBits(12) == 31
  {
    assert BitXor(8, 1) == 9 && BitXor(9, 1) == 8 && BitXor(10, 1) == 11;
    assert BitXor(11, 1) == 10 && BitXor(12, 1) == 13;
    assert BitOr(9, 30) == 31 && BitOr(8, 30) == 30 && BitOr(11, 30) == 31;
    assert BitOr(10, 30) == 30 && BitOr(13, 30) == 31;
  }

  lemma MonthLengthBitsValues()
    ensures MonthLengthBits(1) == 31 && MonthLengthBits(3) == 31 && MonthLengthBits(4) == 30
    ensures MonthLengthBits(5) == 31 && MonthLengthBits(6) == 30 && MonthLengthBits(7) == 31
    ensures MonthLengthBits(8) == 31 && MonthLengthBits(9) == 30 && MonthLengthBits(10) == 31
    ensures MonthLengthBits(11) == 30 && MonthLengthBits(12) == 31
  {
    MonthLengthBitsEarly();
    MonthLengthBitsLate();
  }

  /** The bit formula gives 30 for April, June, September and November and 31 for the other months but February. */
  lemma MonthLengthBitsTable(m: u8)
    ensures 1 <= m <= 12 && m != 2 ==> MonthLengthBits(m) == Gregorian.DaysInMonth(0, m)
  {
    MonthLengthBitsValues();
  }

  /** The number of days of month m in year y; the month is not checked. */
  function LastDayOfMonth(y: u32, m: Month): (r: Day)
    ensures 1 <= m.m <= 12 ==> r.d == Gregorian.DaysInMonth(y, m.m)
  {
    MonthLengthBitsTable(m.m);
    if m.m == 2 then (if IsLeapYear(y) then Day(29) else Day(28))
    else Day(MonthLengthBits(m.m))
  }

  /** Leap years of the Gregorian rule: 1600, 2000 and 2004, but not 1700, 1800, 1900 or 2023. */
  lemma LeapYearExamples()
    ensures IsLeapYear(1600) && IsLeapYear(2000) && IsLeapYear(2004)
    ensures !IsLeapYear(1700) && !IsLeapYear(1800) && !IsLeapYear(1900) && !IsLeapYear(2023)
  {
  }

  /** February 2000 has 29 days, February 1900 has 28, every April 30 and every January 31. */
  lemma LastDayExamples(y: u32)
    ensures LastDayOfMonth(2000, Month(2)) == Day(29)
    ensures LastDayOfMonth(1900, Month(2)) == Day(28)
    ensures LastDayOfMonth(y, Month(4)) == Day(30)
    ensures LastDayOfMonth(y, Month(1)) == Day(31)
  {
  }

  /** What every date built by `FieldDateNew` satisfies, and a positive day. */
  predicate Valid(date: FieldDate) {
    && 1 <= date.month.m <= 12
    && 1 <= date.day.d <= LastDayOfMonth(date.year, date.month).d
  }

  /** A date is valid exactly when the reference calendar has that day. */
  lemma ValidIsDate(date: FieldDate)
    ensures Valid(date) <==> 1 <= date.month.m <= 12 && 1 <= date.day.d <= Gregorian.DaysInMonth(date.year, date.month.m)
  {
  }

  // ---------------------------------------------------------------------
  // Checked construction

  /** `Month::try_from`, for any integer width: accepts exactly 1..12. */
  function MonthTryFrom(v: int): (r: Result<Month, MonthOutOfRange>)
    ensures r.Success? <==> 1 <= v <= 12
    ensures r.Success? ==> r.value.m == v
  {
    if 1 <= v <= 12 then Success(Month(v)) else Failure(MonthOutOfRange)
  }

  /**
   * `FieldDate::new`: `None` where the source panics, on a month outside
   * 1..12 (the `unwrap` of the month conversion) or on a day past the end
   * of the month.  A day of 0 is let through.
   */
  function FieldDateNew(y: u32, m: u8, d: u8): (r: Option<FieldDate>)
    ensures r.Some? <==> 1 <= m <= 12 && d <= Gregorian.DaysInMonth(y, m)
    ensures r.Some? ==> r.value == FieldDate(y, Month(m), Day(d))
  {
    match MonthTryFrom(m)
    case Failure(_) => None
    case Success(m0) =>
      var ldm := LastDayOfMonth(y, m0);
      if d > ldm.d then None else Some(FieldDate(y, m0, Day(d)))
  }

  /** With a positive day, `FieldDateNew` succeeds exactly on the valid dates. */
  lemma FieldDateNewValid(y: u32, m: u8, d: u8)
    requires d >= 1
    ensures FieldDateNew(y, m, d).Some? <==> Valid(FieldDate(y, Month(m), Day(d)))
    ensures FieldDateNew(y, m, d).Some? ==> Valid(FieldDateNew(y, m, d).value)
  {
  }

  /**
   * `FieldDate::new` with a day of 0 rejected as well; unlike `FieldDateNew`,
   * every date it returns can be converted to a day number.
   */
  function FieldDateNewChecked(y: u32, m: u8, d: u8): (r: Option<FieldDate>)
    ensures r.Some? <==> 1 <= m <= 12 && 1 <= d <= Gregorian.DaysInMonth(y, m)
    ensures r.Some? ==> Valid(r.value) && r.value == FieldDate(y, Month(m), Day(d))
  {
    if d == 0 then None else FieldDateNew(y, m, d)
  }

  /** `FieldDate::new` accepts a day of 0, which no month has. */
  lemma FieldDateNewAcceptsDayZero()
    ensures FieldDateNew(2000, 1, 0) == Some(FieldDate(2000, Month(1), Day(0)))
    ensures !Valid(FieldDateNew(2000, 1, 0).value)
    ensures FieldDateNewChecked(2000, 1, 0) == None
  {
  }

  /** Months 0 and 13 are rejected, 1 and 12 accepted; 30 February 2000 and month 14 panic. */
  lemma ConstructionExamples()
    ensures MonthTryFrom(0).Failure? && MonthTryFrom(13).Failure?
    ensures MonthTryFrom(1) == Success(Month(1)) && MonthTryFrom(12) == Success(Month(12))
    ensures FieldDateNew(2000, 1, 1) == Some(FieldDate(2000, Month(1), Day(1)))
    ensures FieldDateNew(2000, 2, 29).Some? && FieldDateNew(2000, 2, 30) == None
    ensures FieldDateNew(2000, 14, 1) == None
  {
  }

  // ---------------------------------------------------------------------
  // Day numbers plus and minus days

  /** `SerialDate + Days`; the u32 sum must not overflow. */
  function SerialAddDays(s: SerialDate, n: Days): (r: SerialDate)
    requires s.rd + n.n < U32_LIMIT
    ensures s.rd <= r.rd && r.rd - s.rd == n.n
  {
    SerialDate(s.rd + n.n)
  }

  /** `SerialDate - Days`; the u32 difference must not underflow. */
  function SerialSubDays(s: SerialDate, n: Days): (r: SerialDate)
    requires s.rd >= n.n
    ensures r.rd <= s.rd && r.rd + n.n == s.rd
    ensures SerialAddDays(r, n) == s
  {
    SerialDate(s.rd - n.n)
  }

  /** Subtracting the days just added gives back the day number. */
  lemma SerialAddSubDays(s: SerialDate, n: Days)
    requires s.rd + n.n < U32_LIMIT
    ensures SerialSubDays(SerialAddDays(s, n), n) == s
  {
  }

  // ---------------------------------------------------------------------
  // Weekdays

  datatype Weekday = Sunday | Monday | Tuesday | Wednesday | Thursday | Friday | Saturday
  {
    /** `self as u32`: Sunday is 0, Saturday 6. */
    function Ordinal(): (k: nat)
      ensures k < 7
    {
      match this
      case Sunday => 0
      case Monday => 1
      case Tuesday => 2
      case Wednesday => 3
      case Thursday => 4
      case Friday => 5
      case Saturday => 6
    }
  }

  const WEEK: seq<Weekday> := [Sunday, Monday, Tuesday, Wednesday, Thursday, Friday, Saturday]

  /** The weekday of ordinal k. */
  function WeekdayOf(k: nat): (w: Weekday)
    requires k < 7
    ensures w.Ordinal() == k
  {
    WEEK[k]
  }

  lemma OrdinalInjective(a: Weekday, b: Weekday)
    ensures a.Ordinal() == b.Ordinal() ==> a == b
    ensures WeekdayOf(a.Ordinal()) == a
  {
  }

  /** `Weekday::from(u32)`: panics (`None`) on any value above 6. */
  function WeekdayFromU32(n: u32): (r: Option<Weekday>)
    ensures r.Some? <==> n <= 6
    ensures r.Some? ==> r.value.Ordinal() == n
  {
    if n < 7 then Some(WeekdayOf(n)) else None
  }

  /** `Weekday::from(SerialDate)`: counts on from the Wednesday 0000-03-01. */
  function WeekdayOfSerial(s: SerialDate): (w: Weekday)
    requires s.rd + 3 < U32_LIMIT
    ensures (w.Ordinal() - s.rd) % 7 == 3
  {
    WeekdayFromU32((s.rd + 3) % 7).value
  }

  /** `Weekday + Days`: the u32 sum must not overflow; the result wraps around the week. */
  function WeekdayAddDays(w: Weekday, n: Days): (r: Weekday)
    requires w.Ordinal() + n.n < U32_LIMIT
    ensures (r.Ordinal() - w.Ordinal() - n.n) % 7 == 0
  {
    WeekdayFromU32((w.Ordinal() + n.n) % 7).value
  }

  /**
   * `Weekday - Weekday`: the days from `b` forward to `a`.  The u32 difference
   * wraps below zero and is brought back by a wrapping addition of 7.
   */
  function WeekdaySub(a: Weekday, b: Weekday): (r: Days)
    ensures r.n <= 6
    ensures WeekdayAddDays(b, r) == a
  {
    var days := WrappingSub32(a.Ordinal(), b.Ordinal());
    var k := if days <= 6 then days else WrappingAdd32(days, 7);
    OrdinalInjective(WeekdayAddDays(b, Days(k)), a);
    Days(k)
  }

  /**
   * `Weekday - Days` as written: the wrapped difference gets 7 added back
   * once, so only offsets up to one week past Sunday stay on the week, and
   * `Weekday::from` panics (`None`) on the rest, except for the offsets so
   * close to 2^32 that the first wrapped difference is already 0..6: those
   * return that difference as the weekday, which is the wrong one.
   */
  function WeekdaySubDays(w: Weekday, n: Days): (r: Option<Weekday>)
    ensures r.Some? <==> n.n <= w.Ordinal() + 7 || n.n >= U32_LIMIT + w.Ordinal() - 6
    ensures n.n <= w.Ordinal() + 7 ==> r.Some? && (r.value.Ordinal() + n.n - w.Ordinal()) % 7 == 0
    ensures n.n >= U32_LIMIT + w.Ordinal() - 6 ==> r.Some? && r.value.Ordinal() == w.Ordinal() - n.n + U32_LIMIT
  {
    var days := WrappingSub32(w.Ordinal(), n.n);
    var k := if days <= 6 then days else WrappingAdd32(days, 7);
    WeekdayFromU32(k)
  }

  /** `Weekday - Days` with the offset reduced modulo 7 first: never leaves the week. */
  function WeekdaySubDaysMod(w: Weekday, n: Days): (r: Weekday)
    ensures (r.Ordinal() + n.n - w.Ordinal()) % 7 == 0
  {
    WeekdayOf((w.Ordinal() - n.n) % 7)
  }

  // ---------------------------------------------------------------------
  // Laws of the weekday operators

  /** Two weekdays whose ordinals agree modulo 7 are the same day. */
  lemma WeekdayCongruent(a: Weekday, b: Weekday, k: int)
    requires (a.Ordinal() - b.Ordinal() - 7 * k) % 7 == 0
    ensures a == b
  {
    var d := a.Ordinal() - b.Ordinal();
    assert -7 < d < 7;
    assert (d - 7 * k) % 7 == d % 7;
    OrdinalInjective(a, b);
  }

  /** A week later is the same weekday. */
  lemma WeekdayAddWeek(w: Weekday)
    ensures WeekdayAddDays(w, Days(7)) == w
  {
    WeekdayCongruent(WeekdayAddDays(w, Days(7)), w, 1);
  }

  /** Adding a days and then b days is adding a + b days. */
  lemma WeekdayAddAdd(w: Weekday, a: Days, b: Days)
    requires w.Ordinal() + a.n + b.n < U32_LIMIT
    ensures WeekdayAddDays(WeekdayAddDays(w, a), b) == WeekdayAddDays(w, Days(a.n + b.n))
  {
    var u := WeekdayAddDays(w, a);
    var v := WeekdayAddDays(u, b);
    var x := WeekdayAddDays(w, Days(a.n + b.n));
    var k1 := (u.Ordinal() - w.Ordinal() - a.n) / 7;
    var k2 := (v.Ordinal() - u.Ordinal() - b.n) / 7;
    var k3 := (x.Ordinal() - w.Ordinal() - a.n - b.n) / 7;
    assert u.Ordinal() - w.Ordinal() - a.n == 7 * k1;
    assert v.Ordinal() - u.Ordinal() - b.n == 7 * k2;
    assert x.Ordinal() - w.Ordinal() - a.n - b.n == 7 * k3;
    WeekdayCongruent(v, x, k1 + k2 - k3);
  }

  /** Reducing modulo 7 before adding does not change the sum modulo 7. */
  lemma ModSevenAdd(x: nat, n: nat)
    ensures (x % 7 + n) % 7 == (x + n) % 7
  {
    assert x + n == 7 * (x / 7) + (x % 7 + n);
  }

  /** The weekday of a later day number is the earlier weekday moved on by the difference. */
  lemma WeekdayOfSerialAdd(s: SerialDate, n: Days)
    requires s.rd + n.n + 3 < U32_LIMIT
    ensures WeekdayOfSerial(SerialAddDays(s, n)) == WeekdayAddDays(WeekdayOfSerial(s), n)
  {
    var a := WeekdayOfSerial(SerialAddDays(s, n));
    var w := WeekdayOfSerial(s);
    var b := WeekdayAddDays(w, n);
    assert a.Ordinal() == (s.rd + n.n + 3) % 7;
    assert w.Ordinal() == (s.rd + 3) % 7;
    assert b.Ordinal() == (w.Ordinal() + n.n) % 7;
    ModSevenAdd(s.rd + 3, n.n);
    OrdinalInjective(a, b);
  }

  /** Subtraction of days as written agrees with the week arithmetic while the offset is at most a week past Sunday. */
  lemma WeekdaySubDaysAgrees(w: Weekday, n: Days)
    requires n.n <= w.Ordinal() + 7
    ensures WeekdaySubDays(w, n) == Some(WeekdaySubDaysMod(w, n))
  {
    var a := WeekdaySubDays(w, n).value;
    var b := WeekdaySubDaysMod(w, n);
    var ka := (a.Ordinal() + n.n - w.Ordinal()) / 7;
    var kb := (b.Ordinal() + n.n - w.Ordinal()) / 7;
    assert a.Ordinal() + n.n - w.Ordinal() == 7 * ka;
    assert b.Ordinal() + n.n - w.Ordinal() == 7 * kb;
    WeekdayCongruent(a, b, ka - kb);
  }

  /** Subtracting, with the offset reduced modulo 7, the days just added gives back the weekday. */
  lemma WeekdayAddSubDays(w: Weekday, n: Days)
    requires w.Ordinal() + n.n < U32_LIMIT
    ensures WeekdaySubDaysMod(WeekdayAddDays(w, n), n) == w
  {
    var u := WeekdayAddDays(w, n);
    var v := WeekdaySubDaysMod(u, n);
    var ku := (u.Ordinal() - w.Ordinal() - n.n) / 7;
    var kv := (v.Ordinal() + n.n - u.Ordinal()) / 7;
    assert u.Ordinal() - w.Ordinal() - n.n == 7 * ku;
    assert v.Ordinal() + n.n - u.Ordinal() == 7 * kv;
    WeekdayCongruent(v, w, ku + kv);
  }

  /** The weekday addition tests of the library. */
  lemma WeekdayAddExamples()
    ensures WeekdayAddDays(Monday, Days(2)) == Wednesday
    ensures WeekdayAddDays(Wednesday, Days(7)) == Wednesday
    ensures WeekdayAddDays(Saturday, Days(2)) == Monday
  {
  }

  /** The tests of subtracting days from a weekday. */
  lemma WeekdaySubDaysExamples()
    ensures WeekdaySubDays(Monday, Days(2)) == Some(Saturday)
    ensures WeekdaySubDays(Wednesday, Days(7)) == Some(Wednesday)
    ensures WeekdaySubDays(Saturday, Days(2)) == Some(Thursday)
  {
  }

  /** The tests of the difference of two weekdays. */
  lemma WeekdaySubExamples()
    ensures WeekdaySub(Monday, Saturday) == Days(2)
    ensures WeekdaySub(Wednesday, Wednesday) == Days(0)
    ensures WeekdaySub(Saturday, Thursday) == Days(2)
  {
  }

  /** A Sunday minus nine days panics as written, where the week arithmetic gives a Friday. */
  lemma WeekdaySubDaysPanics()
    ensures WeekdaySubDays(Sunday, Days(9)) == None
    ensures WeekdaySubDaysMod(Sunday, Days(9)) == Friday
    ensures WeekdayAddDays(Sunday, Days(14)) == Sunday && WeekdaySubDays(Sunday, Days(14)) == None
  {
  }

  /**
   * Offsets within six of 2^32 above the weekday do not panic but give a
   * weekday four days off: 2^32 is 4 modulo 7.  A Sunday minus 2^32 - 1
   * days comes out as a Monday instead of a Thursday.
   */
  lemma WeekdaySubDaysNearLimit(w: Weekday, n: Days)
    requires n.n >= U32_LIMIT + w.Ordinal() - 6
    ensures WeekdaySubDays(w, n).Some?
    ensures (WeekdaySubDays(w, n).value.Ordinal() - WeekdaySubDaysMod(w, n).Ordinal()) % 7 == 4
    ensures WeekdaySubDays(w, n) != Some(WeekdaySubDaysMod(w, n))
  {
    var a := WeekdaySubDays(w, n).value;
    var b := WeekdaySubDaysMod(w, n);
    var kb := (b.Ordinal() + n.n - w.Ordinal()) / 7;
    assert b.Ordinal() + n.n - w.Ordinal() == 7 * kb;
    assert a.Ordinal() - b.Ordinal() == U32_LIMIT - 7 * kb;
    assert U32_LIMIT == 7 * 613566756 + 4;
  }

  /** A Sunday minus 2^32 - 1 days: a Monday as written, a Thursday in week arithmetic. */
  lemma WeekdaySubDaysNearLimitExample()
    ensures WeekdaySubDays(Sunday, Days(U32_LIMIT - 1)) == Some(Monday)
    ensures WeekdaySubDaysMod(Sunday, Days(U32_LIMIT - 1)) == Thursday
  {
  }
}
