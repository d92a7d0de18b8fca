# tempus dates in Dafny

A model of the proleptic-Gregorian date core of the Rust crate tempus.
It covers:

- the bit-mask leap-year test and the bit-trick month length (`is_leap_year`, `last_day_of_month`);
- checked construction of months and dates (`Month::try_from`, `FieldDate::new`);
- the conversion pair between calendar fields and the day number, counted from 0000-03-01.
  This is Neri and Schneider's Euclidean-affine algorithm, `From<FieldDate>` and `From<SerialDate>`;
- adding and subtracting days to day numbers and to dates;
- weekdays: derivation from a day number, addition, and the two subtractions;
- the month operations `wrapping_add` and `wrapping_sub`;
- the older private copy of the date code in `src/lib.rs`;
- the `Add` impls of the duration types in `src/date/period.rs`.

The model is made of pure functions over immutable datatypes, in these modules:

| module | file | contents |
|---|---|---|
| `Ints` | ints.dfy | u8/u32/i32/i64 as subset types; u32 wrap-around; Rust's truncating `%`; two's complement; bitwise `&`, `|`, `^` on naturals |
| `Wrappers` | wrappers.dfy | `Option` and `Result` |
| `Gregorian` | gregorian.dfy | a naive reference calendar, described below |
| `Dates` | dates.dfy | the value types, leap years, month lengths, checked construction, day numbers ± days, weekdays |
| `Conversion` | conversion.dfy | both conversions, proved step by step against the reference calendar, and the round trips |
| `DateArith` | date_arith.dfy | dates ± days, the weekday of a date, the month operations as written and as intended |
| `WrappingLaws` | wrapping_laws.dfy | the exact panic condition and spilled day of the two month operations as written |
| `LibDates` | lib_dates.dfy | what differs in the `dates` module of `src/lib.rs` |
| `Period` | period.dfy | `Days`, `Months`, `Years` over i64 and their additions |

The reference calendar is built without any of the library's tricks:

- the leap-year rule is three divisibility tests;
- the month lengths are a table;
- the start of each year is the sum of the lengths of all earlier years.

The fast formulas are proved equal to this calendar. The round trips are then stated against it.

How the model treats Rust's integer behaviour:

- Integers are unbounded. Each fixed width is a subset type.
- An arithmetic overflow panics in a debug build. It is ruled out by a `requires`.
- An explicit panic becomes `None` in the result. This covers an `unwrap` of an error, `panic!` in `FieldDate::new`, and `Weekday::from` on a value above 6.
- `Month::try_from` returns an error; it is modelled as `Failure`.
- The explicit `wrapping_sub`/`wrapping_add` calls are written out modulo 2^32.

The `dates` module of `src/lib.rs` has its own conversions (src/lib.rs:45-113) and weekday addition (src/lib.rs:185-190). They are operation for operation those of `src/date/mod.rs`. So they are modelled by the same members, `Conversion.ToSerial`, `Conversion.ToField` and `Dates.WeekdayAddDays`, and the same lemmas apply.
The same holds for `From<SerialDate> for Weekday` and `From<u32> for Weekday` (src/lib.rs:115-143). They are covered by `Dates.WeekdayOfSerial` and `Dates.WeekdayFromU32`.

The model follows the code as written, including where it panics or overflows:

- Adding one month to 2000-12-01 panics (`DateArith.WrappingAddPanics`).
- Day numbers from 1073719813 on overflow the forward conversion (`Conversion.SerialRoundTripOverflow`).

## Model

| member | source | states |
|---|---|---|
| `Ints.WrappingSub32` | src/date/mod.rs:349 | `wrapping_sub` on u32 is the difference, plus 2^32 when it would be negative |
| `Ints.WrappingAdd32` | src/date/mod.rs:353 | `wrapping_add` on u32 is the sum, less 2^32 when it does not fit |
| `Ints.TruncRemZero100` | src/lib.rs:193 | Rust's truncating `y % 100` is zero exactly when 100 divides y, also for negative y |
| `Ints.AndThree` | src/date/mod.rs:400 | masking with 3 keeps the value modulo 4 |
| `Ints.AndFifteen` | src/date/mod.rs:397-401 | masking with 15 keeps the value modulo 16 |
| `Dates.IsLeapYear` | src/date/mod.rs:392-402 | the mask test holds exactly for the Gregorian leap years: divisible by 4 and not by 100, or by 400 |
| `Dates.LeapYearExamples` | src/date/mod.rs:392-402 | 1600, 2000, 2004 are leap years; 1700, 1800, 1900, 2023 are not |
| `Dates.MonthLengthBitsTable` | src/date/mod.rs:411 | `(m ^ (m >> 3)) \| 30` is 30 for April, June, September, November and 31 for the other months except February |
| `Dates.LastDayOfMonth` | src/date/mod.rs:404-413 | for a month 1..12 the result is the calendar length of that month in that year |
| `Dates.LastDayExamples` | src/date/mod.rs:404-413 | February 2000 has 29 days, February 1900 has 28, every April 30, every January 31 |
| `Dates.ValidIsDate` | src/date/mod.rs:217-222 | a date passes the library's own month-length check exactly when the calendar has that day |
| `Dates.MonthTryFrom` | src/date/mod.rs:113-124 | succeeds exactly on 1..12, with that month |
| `Dates.FieldDateNew` | src/date/mod.rs:217-231 | returns the date exactly when the month is 1..12 and the day is at most the month's length; otherwise panics |
| `Dates.FieldDateNewValid` | src/date/mod.rs:217-231 | for a positive day, construction succeeds exactly on valid dates |
| `Dates.FieldDateNewAcceptsDayZero` | src/date/mod.rs:219-222 | day 0 passes the check and gives a date that is not valid |
| `Dates.FieldDateNewChecked` | src/date/mod.rs:217-231 | with day 0 rejected too, it returns exactly the valid dates, and returns them unchanged |
| `Dates.ConstructionExamples` | src/date/mod.rs:452-468 | months 0 and 13 rejected, 1 and 12 accepted; 2000-01-01 built; 2000-02-30 and month 14 panic |
| `Dates.SerialAddDays` | src/date/mod.rs:34-41 | the day number moves forward by exactly n |
| `Dates.SerialSubDays` | src/date/mod.rs:49-56 | the day number moves back by exactly n, and adding n again restores it |
| `Dates.SerialAddSubDays` | src/date/mod.rs:34-56 | subtracting the days just added restores the day number |
| `Dates.WeekdayFromU32` | src/date/mod.rs:323-336 | gives the weekday with that ordinal exactly for 0..6 and panics above |
| `Dates.WeekdayOfSerial` | src/date/mod.rs:308-321 | the weekday's ordinal is the day number plus 3 modulo 7, so day 0 is a Wednesday |
| `Dates.WeekdayOfSerialAdd` | src/date/mod.rs:308-321 | the weekday n days later is the weekday moved on by n |
| `Dates.WeekdayAddDays` | src/date/mod.rs:376-381 | the result's ordinal is congruent to the weekday's plus n modulo 7 |
| `Dates.WeekdayAddWeek` | src/date/mod.rs:376-381 | seven days later is the same weekday |
| `Dates.WeekdayAddAdd` | src/date/mod.rs:376-381 | adding a days and then b days is adding a + b days |
| `Dates.WeekdaySub` | src/date/mod.rs:342-358 | the difference of two weekdays is in 0..6 and moves the second onto the first |
| `Dates.WeekdaySubDays` | src/date/mod.rs:360-374 | succeeds exactly for n up to seven more than the weekday's ordinal, or within six of 2^32 above it; for the small n the result is n days earlier modulo 7, for the large n its ordinal is the weekday's less n plus 2^32 |
| `Dates.WeekdaySubDaysNearLimit` | src/date/mod.rs:366-372 | for n within six of 2^32 above the weekday's ordinal the code returns a weekday four days off the one n days earlier |
| `Dates.WeekdaySubDaysNearLimitExample` | src/date/mod.rs:366-372 | Sunday − (2^32 − 1) gives Monday, where n days earlier is Thursday |
| `Dates.WeekdaySubDaysMod` | src/date/mod.rs:360-374 | corrected: never panics; the result is n days earlier modulo 7 |
| `Dates.WeekdaySubDaysAgrees` | src/date/mod.rs:360-374 | for n up to seven more than the weekday's ordinal, the code agrees with the panic-free version |
| `Dates.WeekdayAddSubDays` | src/date/mod.rs:360-381 | corrected: subtracting the days just added restores the weekday; as written, Sunday + 14 − 14 panics (`Dates.WeekdaySubDaysPanics`) |
| `Dates.WeekdaySubDaysPanics` | src/date/mod.rs:366-372 | Sunday minus nine days panics, where the panic-free version gives Friday; Sunday + 14 days is Sunday, and Sunday − 14 days panics |
| `Dates.WeekdayAddExamples` | src/date/mod.rs:491-496 | Monday + 2 is Wednesday, Wednesday + 7 is Wednesday, Saturday + 2 is Monday |
| `Dates.WeekdaySubDaysExamples` | src/date/mod.rs:498-503 | Monday − 2 is Saturday, Wednesday − 7 is Wednesday, Saturday − 2 is Thursday |
| `Dates.WeekdaySubExamples` | src/date/mod.rs:505-510 | Monday − Saturday is 2, Wednesday − Wednesday is 0, Saturday − Thursday is 2 |
| `Conversion.ToSerial` | src/date/mod.rs:64-88 | the day number stays below 2^30 + 8192 |
| `Conversion.SerialFormulaIsYearStart` | src/date/mod.rs:79-85 | `yc + mc + dc` is the naive count of days in earlier years, earlier months and the day itself |
| `Conversion.ToSerialIsRataDie` | src/date/mod.rs:64-88 | the forward conversion of a date with month 1..12 is its naive day number |
| `Conversion.CenturyStepSpec` | src/date/mod.rs:261-263 | the first step splits a day number into whole centuries of 36524 or 36525 days and the day within the century |
| `Conversion.YearStepDivides` | src/date/mod.rs:265-269 | the 64-bit multiply by 2939745 and shift by 32 divide `4 * r1 + 3` by 1461 exactly |
| `Conversion.YearStepSpec` | src/date/mod.rs:265-269 | the second step splits the day of the century into whole years and the day within the year |
| `Conversion.MonthStepSpec` | src/date/mod.rs:271-274 | the third step splits the day of the year into a month 3..14 and the day within it, and the day falls after 305 exactly for months 13 and 14 |
| `Conversion.StepsSpec` | src/date/mod.rs:261-278 | the three steps name a day of shifted year `100 * q1 + q2` whose day number is the input |
| `Conversion.ShiftedFields` | src/date/mod.rs:261-278 | the shifted year, month and day of a day number lie in range and add up to it |
| `Conversion.Unshift` | src/date/mod.rs:279-286 | a day after the 305th of the shifted year is in January or February of the next calendar year, and the day number is unchanged |
| `Conversion.FromShifted` | src/date/mod.rs:280-294 | moving months 13 and 14 back into the next year gives a valid date with the same day number |
| `Conversion.ToField` | src/date/mod.rs:259-295 | the inverse conversion returns a valid date whose naive day number is the input |
| `Conversion.FieldRoundTrip` | src/date/mod.rs:470-474 | field → serial → field is the identity on every valid date the forward conversion accepts |
| `Conversion.SerialRoundTrip` | src/date/mod.rs:476-480 | serial → field → serial is the identity for every day number below 1073719813 |
| `Conversion.SerialRoundTripLimit` | src/date/mod.rs:80 | of the day numbers the inverse accepts, exactly those below 1073719813 convert back without overflow |
| `Conversion.SerialRoundTripOverflow` | src/date/mod.rs:80 | day 1073719813 is 2939745-03-01, whose `1461 * y0` overflows a u32 |
| `Conversion.RoundTripLimitIsYearStart` | src/date/mod.rs:80 | the limit 1073719813 is the day number of 1 March 2939745 |
| `Conversion.ToSerialWide` | src/date/mod.rs:64-88 | with a 64-bit product, the forward conversion still gives the naive day number |
| `Conversion.ToSerialWideExtends` | src/date/mod.rs:64-88 | where the 32-bit conversion runs, the 64-bit one runs too and agrees |
| `Conversion.SerialRoundTripWide` | src/date/mod.rs:259-295 | with the 64-bit product, serial → field → serial is the identity on every day number the inverse accepts |
| `Conversion.Epoch` | src/date/mod.rs:425-429 | 0000-03-01 is day 0 in both directions |
| `Conversion.UnixEpoch` | src/date/mod.rs:470-474 | 1970-01-01 is day 719468 and survives the round trip |
| `Conversion.SerialRoundTrip10000` | src/date/mod.rs:476-480 | day 10000 survives the round trip |
| `DateArith.FieldAddDays` | src/date/mod.rs:233-238 | the result is a valid date exactly n days after the input |
| `DateArith.FieldSubDays` | src/date/mod.rs:246-251 | the result is a valid date exactly n days before the input |
| `DateArith.FieldAddSubDays` | src/date/mod.rs:233-251 | subtracting the days just added restores the date |
| `DateArith.FieldAddOneDay` | src/date/mod.rs:233-238 | adding one day gives the next calendar date, across month and year ends |
| `DateArith.FieldWeekday` | src/date/mod.rs:183-185 | the weekday of the date's day number; its meaning is stated by `DateArith.FieldWeekdayOrdinal` |
| `DateArith.FieldWeekdayOrdinal` | src/date/mod.rs:178-185 | the weekday of a date (`to_serial_date` then `Weekday::from`) is its day number plus 3 modulo 7 |
| `DateArith.FieldWeekdayNextDay` | src/date/mod.rs:183-185 | the next day falls on the next weekday |
| `DateArith.UnixEpochWeekday` | src/date/mod.rs:482-489 | 1970-01-01 is a Thursday, with a Wednesday before and a Friday after |
| `DateArith.BuildSpilled` | src/date/mod.rs:197-203 | for a month of at least 1, a date comes out exactly when the month is at most 12 and the day, or its surplus over the month looked up, exists in the year built; the surplus becomes the day of the next month |
| `DateArith.WrappingAdd` | src/date/mod.rs:187-203 | when it returns, the year advances by `(m + n - 1) / 12` and the month index by n + m, where m is the date's own month, and one more when the day spills |
| `WrappingLaws.WrappingAddBuilt` | src/date/mod.rs:187-203 | with M = m + (m + n − 1) % 12 + 1, it returns exactly when M is at most 12 and the day exists in month M, or M is at most 11 and the surplus fits month M + 1; a spilled result is that surplus in month M + 1 |
| `WrappingLaws.WrappingAddZeroMonths` | src/date/mod.rs:187-203 | adding zero months to 2000-07-10 panics, takes 2000-03-10 to 2000-06-10 and 2000-01-31 to 2000-03-02 |
| `WrappingLaws.WrappingAddNoSpill` | src/date/mod.rs:187-203 | 2001-01-31 plus one month gives 2001-03-31 |
| `DateArith.WrappingAddSkipsMonth` | src/date/mod.rs:187-203 | 2000-01-15 plus one month gives 2000-03-15 |
| `DateArith.WrappingAddPanics` | src/date/mod.rs:187-203 | 2000-12-01 plus one month panics |
| `DateArith.AddMonthsExamples` | src/date/mod.rs:187-203 | the intended month addition takes 2000-01-15 to 2000-02-15 and 2000-12-01 to 2001-01-01 |
| `DateArith.WrappingSub` | src/date/mod.rs:205-215 | when it returns, the year and the month index move forward by n, one more month when the day spills |
| `WrappingLaws.WrappingSubBuilt` | src/date/mod.rs:205-215 | with M = m + n % 12 at least 1, it returns exactly when M is at most 12 and the day, or its surplus over month M of year − n / 12, exists in year + n / 12; a spilled result is that surplus in month M + 1 |
| `DateArith.WrappingSubMovesForward` | src/date/mod.rs:205-215 | 2000-05-10 minus one month gives 2000-06-10 |
| `DateArith.WrappingSubPanics` | src/date/mod.rs:205-215 | 2001-01-29 minus thirteen months panics, because the month length comes from 2000 and the date is built in 2002 |
| `DateArith.SubMonthsExamples` | src/date/mod.rs:205-215 | the intended month subtraction takes 2000-05-10 to 2000-04-10 and 2001-01-29 to 1999-12-29 |
| `DateArith.NextMonthIndex` | src/date/mod.rs:189-192 | adding 1 to a month index gives the next month, across the year end |
| `DateArith.DayInMonthIndex` | src/date/mod.rs:197-203 | day d of a month, with surplus days spilling into the next month, is a valid date in that month exactly when the month has day d, and otherwise in the next month on day d minus the month's length |
| `DateArith.DayInMonthIndexRataDie` | src/date/mod.rs:197-203 | the date so formed, spilled or not, is d − 1 days after the month's first |
| `DateArith.MonthIndexDate` | src/date/mod.rs:187-215 | a valid date is recovered from its month index and day |
| `DateArith.AddMonths` | src/date/mod.rs:187-203 | corrected: valid result; the month index advances by exactly n when the day exists there, keeping the day, and otherwise by n + 1, the day becoming its surplus over the length of the month n on |
| `DateArith.SubMonths` | src/date/mod.rs:205-215 | corrected: valid result; the month index goes back by exactly n when the day exists there, keeping the day, and otherwise by n − 1, the day becoming its surplus over the length of the month n back |
| `DateArith.AddMonthsKeepsDay` | src/date/mod.rs:187-203 | corrected: when the month n months on has the day, the result is that day of that month |
| `DateArith.AddMonthsZero` | src/date/mod.rs:187-215 | corrected: adding or subtracting zero months changes nothing |
| `DateArith.AddSubMonths` | src/date/mod.rs:187-215 | corrected: for days up to 28, subtracting the months just added restores the date |
| `DateArith.SubAddMonths` | src/date/mod.rs:187-215 | corrected: for days up to 28, adding the months just subtracted restores the date |
| `DateArith.AddMonthsAdd` | src/date/mod.rs:187-203 | corrected: for days up to 28, adding a months then b months is adding a + b months |
| `DateArith.AddMonthsSpills` | src/date/mod.rs:197-199 | corrected: 2001-01-31 plus one month spills to 2001-03-03; as written it gives 2001-03-31 (`WrappingLaws.WrappingAddNoSpill`) |
| `LibDates.IsLeapYear` | src/lib.rs:192-197 | the i32 mask test holds exactly for the Gregorian leap years, negative years included |
| `LibDates.Bits32LowBits` | src/lib.rs:193 | the two's-complement bits of an i32 agree with its value modulo 4 and 16 |
| `LibDates.LastDayOfMonth` | src/lib.rs:199-205 | for a month 1..12 the result is the calendar length of that month in that year |
| `LibDates.LeapYearsSigned` | src/lib.rs:192-205 | years 0, −4, −400 are leap years and −100 is not, with February lengths to match |
| `LibDates.WeekdaySub` | src/lib.rs:153-167 | the result is in 0..6; it moves b onto a exactly when a does not come before b, and falls one day short otherwise |
| `LibDates.WeekdaySubWrapsBySix` | src/lib.rs:153-167 | Monday − Saturday is 1 here and 2 in the library's weekday type |
| `LibDates.WeekdaySubDays` | src/lib.rs:169-183 | succeeds exactly for n up to six past the weekday or near 2^32; correct for n up to the weekday, one day early beyond it; for n within six of 2^32 above the weekday its ordinal is the weekday's less n plus 2^32 |
| `LibDates.WeekdaySubDaysWrapsBySix` | src/lib.rs:169-183 | Monday − 2 is Friday here and Saturday in the library's weekday type; Sunday − (2^32 − 1) is Monday |
| `Period.AddDays` | src/date/period.rs:7-12 | the count of the sum is the sum of the counts; the addition panics exactly when that sum leaves the i64 range (`SumFits`), which the precondition rules out; `AddDaysLaws` is its partner |
| `Period.AddMonths` | src/date/period.rs:16-21 | the count of the sum is the sum of the counts, defined exactly when the sum fits an i64 (`SumFits`); `AddMonthsLaws` is its partner |
| `Period.AddYears` | src/date/period.rs:25-30 | the count of the sum is the sum of the counts, defined exactly when the sum fits an i64 (`SumFits`); `AddYearsLaws` is its partner |
| `Period.AddDaysLaws` | src/date/period.rs:7-12 | adding day counts has 0 as identity and is commutative and associative while sums fit an i64 |
| `Period.AddMonthsLaws` | src/date/period.rs:16-21 | the same laws for month counts |
| `Period.AddYearsLaws` | src/date/period.rs:25-30 | the same laws for year counts |
| `Period.AddOverflowEdge` | src/date/period.rs:10 | the largest i64 count plus one does not fit; plus zero does |

## Left out

- `Display` impls and the error message text (src/date/mod.rs:18-22, 105-109, 148-152): formatting only.
- The `AddAssign`/`SubAssign` impls (src/date/mod.rs:43-47, 58-62, 240-244, 253-257): they only store the result of `Add`/`Sub` in place.
- `SerialDate::to_field_date`, `SerialDate::to_weekday` and `FieldDate::to_serial_date` (src/date/mod.rs:24-32, 178-181): each is a one-line call of a modelled conversion.
- The `Calendar` trait and `UGregorian` (src/date/mod.rs:415-438, src/lib.rs:207-217): trait plumbing. Their epoch appears as `Conversion.Epoch`.
- The num-crate generics: the `Year` trait, the `Bounded` impls, and the macro-generated `TryFrom`/`From` for twelve integer widths (src/date/mod.rs:111-176, 383-390). Each operation is modelled at the one width the library instantiates: u32 years in `src/date/mod.rs`, i32 years in `src/lib.rs`. `Month::try_from` takes an unbounded integer, which covers every width.
- The constants `Day::MAX` and `Weekday::MAX` (src/date/mod.rs:93-95, 338-340) are not used by any operation. In `src/lib.rs`, `Weekday::HIGH` (src/lib.rs:150) is the 6 that both weekday subtractions use, and it is written out there.
- `src/date/mod.rs` uses the duration types as `period::Days<u32>` and `Months<u32>`. `src/date/period.rs` declares them over i64 only. The day and month operations follow `src/date/mod.rs` and take u32 counts (`Dates.Days`, `Dates.Months`). The i64 types are modelled in `Period`.
- Release builds wrap on overflow instead of panicking. Only debug-build behaviour is modelled: every implicit overflow is a `requires`.
- The benchmark (benches/date_constructor_benchmark.rs) and the placeholder `it_works` test (src/lib.rs:220-226): no logic.
- `Conversion.ToSerial`: its own contract states only a bound on the result. The meaning of the result is stated by `Conversion.ToSerialIsRataDie`, and the round trips by `Conversion.FieldRoundTrip` and `Conversion.SerialRoundTrip`.
- `Period.AddDaysLaws`, `Period.AddMonthsLaws`, `Period.AddYearsLaws`: associativity is stated only when every partial sum fits an i64, because otherwise the source panics on one side.
- That the three duration types cannot be added across units (src/date/period.rs:5, 15, 24) is enforced by the types `Period.Days`, `Period.Months` and `Period.Years`. Nothing needs proving there.

## Findings

| source | as written | input that shows it | evidently intended | confidence | as-written member | corrected member |
|---|---|---|---|---|---|---|
| src/date/mod.rs:187-203 | `wrapping_add` adds the month number `(m + n - 1) % 12 + 1` to the date's month instead of using it as the month | 2000-01-15 + 1 month gives 2000-03-15; 2000-12-01 + 1 month builds month 13 and panics | the date n months later, with the year carried | not executed | `DateArith.WrappingAdd`, `DateArith.WrappingAddSkipsMonth`, `DateArith.WrappingAddPanics` | `DateArith.AddMonths`, `DateArith.AddMonthsExamples` |
| src/date/mod.rs:205-215 | `wrapping_sub` adds `n % 12` to the month and `n / 12` to the year, and takes the month length from `year - n / 12` | 2000-05-10 − 1 month gives 2000-06-10; 2001-01-29 − 13 months panics | the date n months earlier | not executed | `DateArith.WrappingSub`, `DateArith.WrappingSubMovesForward`, `DateArith.WrappingSubPanics` | `DateArith.SubMonths`, `DateArith.SubMonthsExamples` |
| src/date/mod.rs:360-374 | `Weekday - Days` adds 7 back only once after the wrapped difference | Sunday − 9 days gives ordinal 2^32 − 2 and `Weekday::from` panics; Sunday − (2^32 − 1) days wraps to ordinal 1 and gives Monday instead of Thursday | the weekday n days earlier, for every n | not executed | `Dates.WeekdaySubDays`, `Dates.WeekdaySubDaysPanics`, `Dates.WeekdaySubDaysNearLimit`, `Dates.WeekdaySubDaysNearLimitExample` | `Dates.WeekdaySubDaysMod` |
| src/lib.rs:153-167 | `Weekday - Weekday` adds back 6 instead of 7 after the difference wraps | Monday − Saturday gives 1 | 2, the days from Saturday to Monday | not executed | `LibDates.WeekdaySub`, `LibDates.WeekdaySubWrapsBySix` | `Dates.WeekdaySub` |
| src/lib.rs:169-183 | `Weekday - u32` adds back 6 instead of 7 after the difference wraps, and does not reduce n modulo 7 | Monday − 2 gives Friday; Sunday − (2^32 − 1) gives Monday | Saturday; Thursday | not executed | `LibDates.WeekdaySubDays`, `LibDates.WeekdaySubDaysWrapsBySix` | `Dates.WeekdaySubDaysMod` |
| src/date/mod.rs:219-222 | `FieldDate::new` checks only the upper bound of the day | `FieldDate::new(2000, 1, 0)` returns a date with day 0, which then underflows `d1 - 1` in the forward conversion | day 0 rejected like any other day that does not exist | not executed | `Dates.FieldDateNew`, `Dates.FieldDateNewAcceptsDayZero` | `Dates.FieldDateNewChecked` |
| src/date/mod.rs:80 | `1461 * y0` is taken in 32 bits, although the inverse conversion accepts day numbers up to 2^30 − 1 | day 1073719813 converts to 2939745-03-01, whose forward conversion overflows | the product taken in 64 bits, as the inverse conversion does for its own product, so every day number round-trips | not executed | `Conversion.ToSerial`, `Conversion.SerialRoundTripOverflow` | `Conversion.ToSerialWide` |
