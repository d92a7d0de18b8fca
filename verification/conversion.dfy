/**
 * The two conversions between calendar fields and day numbers, `From<FieldDate>
 * for SerialDate` and `From<SerialDate> for FieldDate` (Neri and Schneider's
 * algorithm built from Euclidean affine functions), and their proofs against
 * the reference calendar: the fast forward function computes the naive day
 * number, the inverse returns the valid date with the given day number, and
 * each undoes the other.  The private `dates` module of `src/lib.rs` holds
 * an identical copy of both conversions, modelled by the same functions.
 */
module Conversion {
  import opened Ints
  import opened Dates
  import Gregorian

  const P16: int := 0x1_0000
  const P32: int := 0x1_0000_0000

  /**
   * The day number of 1 March 2939745: from there on the shifted year y0 of a
   * date makes `1461 * y0` overflow a u32 in the forward conversion.
   */
  const SERIAL_ROUND_TRIP_LIMIT: int := 1073719813

  // ---------------------------------------------------------------------
  // Field -> serial

  /** The year counted from March: January and February belong to the year before. */
  function ShiftedYear(date: FieldDate): int {
    if date.month.m == 1 || date.month.m == 2 then date.year - 1 else date.year
  }

  /** The month counted from March: January and February become 13 and 14. */
  function ShiftedMonth(date: FieldDate): int {
    if date.month.m == 1 || date.month.m == 2 then date.month.m + 12 else date.month.m
  }

  /**
   * The forward conversion runs without a u32 overflow or underflow:
   * `y1 - j`, `d1 - 1`, `979 * m0 - 2919` and `1461 * y0` all stay in range.
   */
  predicate ToSerialDefined(date: FieldDate) {
    && date.month.m >= 1
    && date.day.d >= 1
    && ShiftedYear(date) >= 0
    && 1461 * ShiftedYear(date) < U32_LIMIT
  }

  /** Days before shifted year y0, before shifted month m0, and d0: the sum `yc + mc + dc`. */
  function SerialFormula(y0: nat, m0: nat, d0: nat): nat
    requires m0 >= 3
  {
    var q1 := y0 / 100;
    var yc := 1461 * y0 / 4 - q1 + q1 / 4;
    var mc := (979 * m0 - 2919) / 32;
    yc + mc + d0
  }

  /** `SerialDate::from(FieldDate)`. */
  function ToSerial(date: FieldDate): (s: SerialDate)
    requires ToSerialDefined(date)
    ensures s.rd < 0x4000_2000
  {
    var y0 := ShiftedYear(date);
    assert 1461 * y0 / 4 < 0x4000_0000;
    SerialDate(SerialFormula(y0, ShiftedMonth(date), date.day.d - 1))
  }

  /** Each part of the forward formula is the naive count it stands for. */
  lemma SerialFormulaIsYearStart(y0: nat, m0: nat, d0: nat)
    requires 3 <= m0 <= 14
    ensures SerialFormula(y0, m0, d0)
      == Gregorian.YearStart(y0) + Gregorian.DaysBeforeShiftedMonth(m0) + d0
  {
    Gregorian.YearStartClosedForm(y0);
    Gregorian.DaysBeforeShiftedMonthTable(m0);
    assert 1461 * y0 / 4 == 365 * y0 + y0 / 4;
    assert (y0 / 100) / 4 == y0 / 400;
  }

  /** The forward conversion computes the naive day number of the date. */
  lemma ToSerialIsRataDie(date: FieldDate)
    requires ToSerialDefined(date)
    ensures date.month.m <= 12 ==>
      && Gregorian.OnOrAfterEpoch(date.year, date.month.m)
      && ToSerial(date).rd == Gregorian.RataDie(date.year, date.month.m, date.day.d)
  {
    if date.month.m <= 12 {
      var y0, m0 := ShiftedYear(date), ShiftedMonth(date);
      assert y0 == Gregorian.ShiftedYearOf(date.year, date.month.m);
      assert m0 == Gregorian.ShiftedMonthOf(date.month.m);
      SerialFormulaIsYearStart(y0, m0, date.day.d - 1);
    }
  }

  // ---------------------------------------------------------------------
  // Serial -> field, one Euclidean affine step at a time

  /** Centuries since 0000-03-01 and the day within the century: `q1`, `r1`. */
  function CenturyStep(rd: nat): (nat, nat)
    requires 4 * rd + 3 < U32_LIMIT
  {
    var n1 := 4 * rd + 3;
    (n1 / 146097, n1 % 146097 / 4)
  }

  /**
   * Year within the century and day within the year: `q2`, `r2`.  The
   * product is taken in 64 bits; `2939745 / 2^32` approximates `1 / 1461`.
   */
  function YearStep(r1: nat): (nat, nat)
    requires r1 <= 36524
  {
    var n2 := 4 * r1 + 3;
    var u2 := 2939745 * n2;
    (u2 / P32, u2 % P32 / 2939745 / 4)
  }

  /** Shifted month and day within the month: `q3`, `r3`. */
  function MonthStep(r2: nat): (nat, nat)
    requires r2 <= 365
  {
    var n3 := 2141 * r2 + 197913;
    (n3 / P16, n3 % P16 / 2141)
  }

  /**
   * A day number is the start of its century plus the day within it; a
   * century has 36524 days, one more every fourth century, which is then the
   * only one whose day 36524 exists.
   */
  lemma CenturyStepSpec(rd: nat)
    requires 4 * rd + 3 < U32_LIMIT
    ensures var (c, r1) := CenturyStep(rd);
      && rd == 36524 * c + c / 4 + r1
      && r1 <= 36524
      && (r1 == 36524 ==> c % 4 == 3)
      && c <= 29398
  {
    var n1 := 4 * rd + 3;
    var c, s := n1 / 146097, n1 % 146097;
    var r1, t := s / 4, s % 4;
    assert n1 == 146097 * c + 4 * r1 + t;
    var k := rd - 36524 * c - r1;
    assert 4 * k == c + t - 3;
    assert 4 * (k - c / 4) == c % 4 + t - 3;
    assert k == c / 4;
  }

  /**
   * The 64-bit multiply-and-shift computes the quotient and remainder of
   * `4 * r1 + 3` by 1461, the days in four years.
   */
  lemma YearStepDivides(r1: nat)
    requires r1 <= 36524
    ensures YearStep(r1) == ((4 * r1 + 3) / 1461, ((4 * r1 + 3) % 1461) / 4)
  {
    var n2 := 4 * r1 + 3;
    var a, b := n2 / 1461, n2 % 1461;
    assert a <= 100;
    var u2 := 2939745 * n2;
    assert u2 == P32 * a + (149 * a + 2939745 * b);
    DivModOf(u2, P32, a, 149 * a + 2939745 * b);
    DivModOf(149 * a + 2939745 * b, 2939745, b, 149 * a);
    assert u2 % P32 / 2939745 == b;
  }

  /**
   * A day within a century is the start of its year plus the day within the
   * year; only a year before a leap day, the fourth of its group, has a day 365.
   */
  lemma YearStepSpec(r1: nat)
    requires r1 <= 36524
    ensures var (y, r2) := YearStep(r1);
      && r1 == 1461 * y / 4 + r2
      && y <= 99
      && r2 <= 365
      && (r2 == 365 ==> y % 4 == 3 && (y == 99 ==> r1 == 36524))
  {
    YearStepDivides(r1);
    var n2 := 4 * r1 + 3;
    var y, b := n2 / 1461, n2 % 1461;
    var r2, v := b / 4, b % 4;
    assert n2 == 1461 * y + 4 * r2 + v;
    assert 1461 * y == 4 * (1461 * y / 4) + y % 4;
    assert 4 * (r1 - 1461 * y / 4 - r2) == y % 4 + v - 3;
  }

  lemma MonthStepCase(r2: nat, m0: nat, offset: nat, c: nat, len: nat)
    requires offset <= r2 < offset + len && r2 <= 365
    requires 2141 * offset + 197913 == P16 * m0 + c
    requires c < 2141 && c + 2141 * (len - 1) < P16
    ensures MonthStep(r2) == (m0, r2 - offset)
  {
    var d := r2 - offset;
    var n3 := 2141 * r2 + 197913;
    assert n3 == P16 * m0 + (c + 2141 * d);
    DivModOf(n3, P16, m0, c + 2141 * d);
    DivModOf(c + 2141 * d, 2141, d, c);
  }

  /**
   * The third step splits a day of the shifted year into month and day:
   * months 3..14 (March to February) with their calendar lengths, February
   * given 29 days.
   */
  lemma MonthStepSpec(r2: nat)
    requires r2 <= 365
    ensures var (m0, d0) := MonthStep(r2);
      && 3 <= m0 <= 14
      && r2 == Gregorian.DaysBeforeShiftedMonth(m0) + d0
      && (m0 < 14 ==> d0 < Gregorian.ShiftedMonthLength(0, m0))
      && d0 < 29 + (if m0 < 14 then 2 else 0)
      && (m0 >= 13 <==> r2 > 305)
  {
    if r2 < 153 {
      MonthStepSpring(r2);
    } else {
      MonthStepAutumn(r2);
    }
  }

  /** The month step from March to July. */
  lemma MonthStepSpring(r2: nat)
    requires r2 < 153
    ensures var (m0, d0) := MonthStep(r2);
      && 3 <= m0 <= 14
      && r2 == Gregorian.DaysBeforeShiftedMonth(m0) + d0
      && (m0 < 14 ==> d0 < Gregorian.ShiftedMonthLength(0, m0))
      && d0 < 29 + (if m0 < 14 then 2 else 0)
      && (m0 >= 13 <==> r2 > 305)
  {
    var (m0, d0) := MonthStep(r2);
    if r2 < 31 { MonthStepCase(r2, 3, 0, 1305, 31); }
    else if r2 < 61 { MonthStepCase(r2, 4, 31, 2140, 30); }
    else if r2 < 92 { MonthStepCase(r2, 5, 61, 834, 31); }
    else if r2 < 122 { MonthStepCase(r2, 6, 92, 1669, 30); }
    else { MonthStepCase(r2, 7, 122, 363, 31); }
    Gregorian.DaysBeforeShiftedMonthTable(m0);
  }

  /** The month step from August to February. */
  lemma MonthStepAutumn(r2: nat)
    requires 153 <= r2 <= 365
    ensures var (m0, d0) := MonthStep(r2);
      && 3 <= m0 <= 14
      && r2 == Gregorian.DaysBeforeShiftedMonth(m0) + d0
      && (m0 < 14 ==> d0 < Gregorian.ShiftedMonthLength(0, m0))
      && d0 < 29 + (if m0 < 14 then 2 else 0)
      && (m0 >= 13 <==> r2 > 305)
  {
    var (m0, d0) := MonthStep(r2);
    if r2 < 184 { MonthStepCase(r2, 8, 153, 1198, 31); }
    else if r2 < 214 { MonthStepCase(r2, 9, 184, 2033, 30); }
    else if r2 < 245 { MonthStepCase(r2, 10, 214, 727, 31); }
    else if r2 < 275 { MonthStepCase(r2, 11, 245, 1562, 30); }
    else if r2 < 306 { MonthStepCase(r2, 12, 275, 256, 31); }
    else if r2 < 337 { MonthStepCase(r2, 13, 306, 1091, 31); }
    else { MonthStepCase(r2, 14, 337, 1926, 29); }
    Gregorian.DaysBeforeShiftedMonthTable(m0);
  }

  /** The start of shifted year `100 * c + y` split into whole centuries and years. */
  lemma YearStartSplit(c: nat, y: nat)
    requires y <= 99
    ensures Gregorian.YearStart(100 * c + y) == 36524 * c + c / 4 + 1461 * y / 4
  {
    var y0 := 100 * c + y;
    Gregorian.YearStartClosedForm(y0);
    assert y0 / 4 == 25 * c + y / 4;
    assert y0 / 100 == c;
    assert y0 / 400 == c / 4;
  }

  /**
   * What the three steps establish together: the shifted year `100 * q1 + q2`,
   * month `q3` and day `r3` name a day of that year, whose offset in the
   * year is `r2` and whose day number is rd.
   */
  lemma StepsSpec(rd: nat, q1: nat, r1: nat, q2: nat, r2: nat, q3: nat, r3: nat, y0: nat)
    requires 4 * rd + 3 < U32_LIMIT && CenturyStep(rd) == (q1, r1)
    requires r1 <= 36524 && YearStep(r1) == (q2, r2)
    requires r2 <= 365 && MonthStep(r2) == (q3, r3)
    requires y0 == 100 * q1 + q2
    ensures 3 <= q3 <= 14 && r3 < Gregorian.ShiftedMonthLength(y0, q3)
    ensures r2 == Gregorian.DaysBeforeShiftedMonth(q3) + r3
    ensures rd == Gregorian.YearStart(y0) + r2
    ensures y0 < 2939900
    ensures q3 >= 13 <==> r2 > 305
  {
    CenturyStepSpec(rd);
    assert rd == 36524 * q1 + q1 / 4 + r1 && q1 <= 29398;
    assert r1 == 36524 ==> q1 % 4 == 3;
    YearStepSpec(r1);
    assert r1 == 1461 * q2 / 4 + r2 && q2 <= 99;
    assert r2 == 365 ==> q2 % 4 == 3 && (q2 == 99 ==> r1 == 36524);
    MonthStepSpec(r2);
    YearStartSplit(q1, q2);
    DayFitsMonth(q1, q2, q3, r2, r3);
  }

  /**
   * The day the month step names exists in its month of shifted year
   * `100 * c + y`: a day 28 of February only arises as day 365 of the
   * shifted year, which ends with a leap day.
   */
  lemma DayFitsMonth(c: nat, y: nat, m0: nat, r2: nat, d0: nat)
    requires y <= 99 && r2 <= 365
    requires (r2 == 365 ==> y % 4 == 3 && (y == 99 ==> c % 4 == 3))
    requires 3 <= m0 <= 14 && r2 == Gregorian.DaysBeforeShiftedMonth(m0) + d0
    requires m0 < 14 ==> d0 < Gregorian.ShiftedMonthLength(0, m0)
    requires d0 < 29 + (if m0 < 14 then 2 else 0)
    ensures d0 < Gregorian.ShiftedMonthLength(100 * c + y, m0)
  {
    var y0 := 100 * c + y;
    if m0 < 14 {
      Gregorian.ShiftedMonthLengthFixed(y0, m0);
    } else {
      Gregorian.DaysBeforeShiftedMonthTable(14);
      if d0 == 28 {
        assert r2 == 365;
        LeapDayYear(c, y);
      }
    }
  }

  /** The shifted year holding a day 365 ends with a 29 February. */
  lemma LeapDayYear(c: nat, y: nat)
    requires y <= 99 && y % 4 == 3 && (y == 99 ==> c % 4 == 3)
    ensures Gregorian.IsLeap(100 * c + y + 1)
  {
    var n := 100 * c + y + 1;
    if y == 99 {
      assert c == 4 * (c / 4) + 3;
      DivModOf(n, 400, c / 4 + 1, 0);
    } else {
      assert y + 1 == 4 * ((y + 1) / 4);
      DivModOf(n, 4, 25 * c + (y + 1) / 4, 0);
      DivModOf(n, 100, c, y + 1);
    }
  }

  /**
   * Moving a day of shifted month 13 or 14 back to January or February of
   * the next calendar year gives the calendar date with the same day number.
   */
  lemma Unshift(rd: nat, y0: nat, m0: nat, d0: nat, r2: nat, y1: nat, m1: nat)
    requires 3 <= m0 <= 14 && d0 < Gregorian.ShiftedMonthLength(y0, m0)
    requires r2 == Gregorian.DaysBeforeShiftedMonth(m0) + d0
    requires rd == Gregorian.YearStart(y0) + r2
    requires m0 >= 13 <==> r2 > 305
    requires y1 == y0 + (if r2 <= 305 then 0 else 1) && m1 == m0 - (if r2 <= 305 then 0 else 12)
    ensures 1 <= m1 <= 12 && d0 < 31
    ensures Gregorian.IsDate(y1, m1, d0 + 1)
    ensures Gregorian.RataDie(y1, m1, d0 + 1) == rd
  {
    assert Gregorian.ShiftedYearOf(y1, m1) == y0 && Gregorian.ShiftedMonthOf(m1) == m0;
    Gregorian.ShiftedMonthLengthOf(y1, m1);
  }

  /**
   * The shifted year, shifted month, day of the month (from 0) and day of
   * the shifted year of day number rd, as the three steps compute them.
   */
  function ShiftedFields(rd: nat): (f: (nat, nat, nat, nat))
    requires 4 * rd + 3 < U32_LIMIT
    ensures 3 <= f.1 <= 14 && f.2 < Gregorian.ShiftedMonthLength(f.0, f.1)
    ensures f.3 == Gregorian.DaysBeforeShiftedMonth(f.1) + f.2
    ensures rd == Gregorian.YearStart(f.0) + f.3
    ensures f.0 < 2939900
    ensures f.1 >= 13 <==> f.3 > 305
  {
    var c := CenturyStep(rd);
    CenturyStepSpec(rd);
    var y := YearStep(c.1);
    YearStepSpec(c.1);
    var m := MonthStep(y.1);
    var y0 := 100 * c.0 + y.0;
    StepsSpec(rd, c.0, c.1, y.0, y.1, m.0, m.1, y0);
    (y0, m.0, m.1, y.1)
  }

  /**
   * The second half of `FieldDate::from(SerialDate)`: shifted fields moved
   * back to January and February when the day falls after the 305th of the
   * shifted year.  The casts `m1 as u8` and `d1 as u8` keep the value,
   * since the month is at most 12 and the day at most 31.
   */
  function FromShifted(rd: nat, y0: nat, m0: nat, d0: nat, r2: nat): (date: FieldDate)
    requires 3 <= m0 <= 14 && d0 < Gregorian.ShiftedMonthLength(y0, m0)
    requires r2 == Gregorian.DaysBeforeShiftedMonth(m0) + d0
    requires rd == Gregorian.YearStart(y0) + r2
    requires m0 >= 13 <==> r2 > 305
    requires y0 < 2939900
    ensures Valid(date)
    ensures Gregorian.OnOrAfterEpoch(date.year, date.month.m)
    ensures Gregorian.RataDie(date.year, date.month.m, date.day.d) == rd
  {
    var y1 := y0 + (if r2 <= 305 then 0 else 1);
    var m1 := m0 - (if r2 <= 305 then 0 else 12);
    Unshift(rd, y0, m0, d0, r2, y1, m1);
    var date := FieldDate(y1, Month(m1), Day(d0 + 1));
    ValidIsDate(date);
    date
  }

  /** `FieldDate::from(SerialDate)`: the calendar date of a day number. */
  function ToField(s: SerialDate): (date: FieldDate)
    requires 4 * s.rd + 3 < U32_LIMIT
    ensures Valid(date)
    ensures Gregorian.OnOrAfterEpoch(date.year, date.month.m)
    ensures Gregorian.RataDie(date.year, date.month.m, date.day.d) == s.rd
  {
    var f := ShiftedFields(s.rd);
    FromShifted(s.rd, f.0, f.1, f.2, f.3)
  }

  // ---------------------------------------------------------------------
  // Round trips

  /** Day number 1073719813 is 1 March 2939745, the first day of shifted year 2939745. */
  lemma RoundTripLimitIsYearStart()
    ensures Gregorian.YearStart(2939745) == SERIAL_ROUND_TRIP_LIMIT
  {
    Gregorian.YearStartClosedForm(2939745);
  }

  lemma YearStartMonotone(a: nat, b: nat)
    requires a <= b
    ensures Gregorian.YearStart(a) <= Gregorian.YearStart(b)
  {
    if a < b {
      Gregorian.YearStartIncreasing(a, b);
    }
  }

  /**
   * The day number of a date lies in its shifted year: at or after the
   * year's first day and before the next year's.
   */
  lemma RataDieInShiftedYear(y: int, m: int, d: int)
    requires Gregorian.IsDate(y, m, d)
    ensures var y0 := Gregorian.ShiftedYearOf(y, m);
      && y0 >= 0
      && Gregorian.YearStart(y0) <= Gregorian.RataDie(y, m, d) < Gregorian.YearStart(y0 + 1)
  {
    var y0, m0 := Gregorian.ShiftedYearOf(y, m), Gregorian.ShiftedMonthOf(m);
    assert Gregorian.ShiftedMonthLength(y0, m0) == Gregorian.DaysInMonth(y, m);
    Gregorian.DayWithinShiftedYear(y0, m0, d - 1);
  }

  /**
   * A date's day number stays below the limit exactly when its shifted year
   * keeps `1461 * y0` inside a u32.
   */
  lemma ShiftedYearBound(date: FieldDate)
    requires Valid(date) && Gregorian.OnOrAfterEpoch(date.year, date.month.m)
    ensures ShiftedYear(date) >= 0
    ensures 1461 * ShiftedYear(date) < U32_LIMIT
      <==> Gregorian.RataDie(date.year, date.month.m, date.day.d) < SERIAL_ROUND_TRIP_LIMIT
  {
    ValidIsDate(date);
    RataDieInShiftedYear(date.year, date.month.m, date.day.d);
    RoundTripLimitIsYearStart();
    var y0 := ShiftedYear(date);
    if y0 < 2939745 {
      YearStartMonotone(y0 + 1, 2939745);
    } else {
      YearStartMonotone(2939745, y0);
    }
  }

  /**
   * Field -> serial -> field is the identity on every valid date whose
   * forward conversion does not overflow; the day number in between is one
   * the inverse accepts.
   */
  lemma FieldRoundTrip(date: FieldDate)
    requires Valid(date) && ToSerialDefined(date)
    ensures 4 * ToSerial(date).rd + 3 < U32_LIMIT
    ensures ToField(ToSerial(date)) == date
  {
    ToSerialIsRataDie(date);
    ShiftedYearBound(date);
    var s := ToSerial(date);
    var back := ToField(s);
    ValidIsDate(date);
    ValidIsDate(back);
    Gregorian.RataDieInjective(back.year, back.month.m, back.day.d, date.year, date.month.m, date.day.d);
  }

  /**
   * Serial -> field -> serial is the identity on every day number below
   * SERIAL_ROUND_TRIP_LIMIT: the date in between converts back without overflow.
   */
  lemma SerialRoundTrip(s: SerialDate)
    requires s.rd < SERIAL_ROUND_TRIP_LIMIT
    ensures ToSerialDefined(ToField(s))
    ensures ToSerial(ToField(s)) == s
  {
    var date := ToField(s);
    ShiftedYearBound(date);
    ToSerialIsRataDie(date);
  }

  /**
   * Of the day numbers the inverse accepts, exactly those below the limit
   * give a date the forward conversion accepts again: from 1 March 2939745
   * on, `1461 * y0` overflows.
   */
  lemma SerialRoundTripLimit(s: SerialDate)
    requires 4 * s.rd + 3 < U32_LIMIT
    ensures ToSerialDefined(ToField(s)) <==> s.rd < SERIAL_ROUND_TRIP_LIMIT
  {
    ShiftedYearBound(ToField(s));
  }

  /** The epoch: 0000-03-01 is day 0, in both directions. */
  lemma Epoch()
    ensures ToSerial(FieldDate(0, Month(3), Day(1))) == SerialDate(0)
    ensures ToField(SerialDate(0)) == FieldDate(0, Month(3), Day(1))
  {
    FieldRoundTrip(FieldDate(0, Month(3), Day(1)));
  }

  /** The Unix epoch 1970-01-01 is day 719468 and survives the round trip. */
  lemma UnixEpoch()
    ensures ToSerial(FieldDate(1970, Month(1), Day(1))) == SerialDate(719468)
    ensures ToField(SerialDate(719468)) == FieldDate(1970, Month(1), Day(1))
  {
    UnixEpochSerial();
    FieldRoundTrip(FieldDate(1970, Month(1), Day(1)));
  }

  lemma UnixEpochSerial()
    ensures ToSerial(FieldDate(1970, Month(1), Day(1))) == SerialDate(719468)
  {
    var date := FieldDate(1970, Month(1), Day(1));
    assert ShiftedYear(date) == 1969 && ShiftedMonth(date) == 13;
    assert SerialFormula(1969, 13, 0) == 719468;
  }

  /** Day 10000 survives the round trip. */
  lemma SerialRoundTrip10000()
    ensures ToSerialDefined(ToField(SerialDate(10000)))
      && ToSerial(ToField(SerialDate(10000))) == SerialDate(10000)
  {
    SerialRoundTrip(SerialDate(10000));
  }

  // ---------------------------------------------------------------------
  // The forward conversion near the top of the serial range

  /**
   * The first day number the inverse accepts whose date the forward
   * conversion rejects: 1 March 2939745, where `1461 * y0` needs 33 bits.
   */
  lemma SerialRoundTripOverflow(s: SerialDate)
    requires s.rd == SERIAL_ROUND_TRIP_LIMIT
    ensures 4 * s.rd + 3 < U32_LIMIT
    ensures ToField(s) == FieldDate(2939745, Month(3), Day(1))
    ensures !ToSerialDefined(ToField(s))
  {
    RoundTripLimitIsYearStart();
    MarchFirst(s, 2939745);
  }

  /** The first day of a shifted year converts to 1 March of that year. */
  lemma MarchFirst(s: SerialDate, y: u32)
    requires 4 * s.rd + 3 < U32_LIMIT && s.rd == Gregorian.YearStart(y)
    ensures ToField(s) == FieldDate(y, Month(3), Day(1))
  {
    assert Gregorian.RataDie(y, 3, 1) == s.rd;
    DateOfRataDie(ToField(s), FieldDate(y, Month(3), Day(1)));
  }

  /** Two valid dates from the epoch on with the same day number are the same date. */
  lemma DateOfRataDie(a: FieldDate, b: FieldDate)
    requires Valid(a) && Gregorian.OnOrAfterEpoch(a.year, a.month.m)
    requires Valid(b) && Gregorian.OnOrAfterEpoch(b.year, b.month.m)
    requires Gregorian.RataDie(a.year, a.month.m, a.day.d) == Gregorian.RataDie(b.year, b.month.m, b.day.d)
    ensures a == b
  {
    ValidIsDate(a);
    ValidIsDate(b);
    Gregorian.RataDieInjective(a.year, a.month.m, a.day.d, b.year, b.month.m, b.day.d);
  }

  /**
   * The forward conversion with the product `1461 * y0` taken in 64 bits and
   * only its quarter brought back to 32 bits, as the inverse conversion
   * already does for its own wide product.
   */
  predicate ToSerialWideDefined(date: FieldDate) {
    && date.month.m >= 1
    && date.day.d >= 1
    && ShiftedYear(date) >= 0
    && 1461 * ShiftedYear(date) / 4 < U32_LIMIT
    && SerialFormula(ShiftedYear(date), ShiftedMonth(date), date.day.d - 1) < U32_LIMIT
  }

  function ToSerialWide(date: FieldDate): (s: SerialDate)
    requires ToSerialWideDefined(date)
    ensures 1 <= date.month.m <= 12 ==>
      Gregorian.OnOrAfterEpoch(date.year, date.month.m)
      && s.rd == Gregorian.RataDie(date.year, date.month.m, date.day.d)
  {
    var y0, m0 := ShiftedYear(date), ShiftedMonth(date);
    var s := SerialDate(SerialFormula(y0, m0, date.day.d - 1));
    if date.month.m <= 12 then
      assert y0 == Gregorian.ShiftedYearOf(date.year, date.month.m);
      assert m0 == Gregorian.ShiftedMonthOf(date.month.m);
      SerialFormulaIsYearStart(y0, m0, date.day.d - 1);
      s
    else
      s
  }

  /** Wherever the 32-bit forward conversion runs, the wide one runs too and agrees. */
  lemma ToSerialWideExtends(date: FieldDate)
    requires ToSerialDefined(date)
    ensures ToSerialWideDefined(date)
    ensures ToSerialWide(date) == ToSerial(date)
  {
    var y0 := ShiftedYear(date);
    assert 1461 * y0 / 4 < 0x4000_0000;
  }

  /**
   * With the wide product, serial -> field -> serial is the identity on
   * every day number the inverse conversion accepts.
   */
  lemma SerialRoundTripWide(s: SerialDate)
    requires 4 * s.rd + 3 < U32_LIMIT
    ensures ToSerialWideDefined(ToField(s))
    ensures ToSerialWide(ToField(s)) == s
  {
    var date := ToField(s);
    ValidIsDate(date);
    var y0, m0, d0 := ShiftedYear(date), ShiftedMonth(date), date.day.d - 1;
    assert y0 == Gregorian.ShiftedYearOf(date.year, date.month.m);
    assert m0 == Gregorian.ShiftedMonthOf(date.month.m);
    SerialFormulaIsYearStart(y0, m0, d0);
    assert SerialFormula(y0, m0, d0) == s.rd;
    Gregorian.YearStartAtLeast(y0);
    assert y0 < 2941759;
  }
}
