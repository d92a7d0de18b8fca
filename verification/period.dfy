/**
 * The durations of `src/date/period.rs`: days, months and years, each a
 * signed 64-bit count in a type of its own, with addition only within a
 * unit.  An addition that leaves the i64 range panics in a debug build, so
 * it is ruled out by a precondition.
 */
module Period {
  import opened Ints

  datatype Days = Days(n: i64)
  datatype Months = Months(n: i64)
  datatype Years = Years(n: i64)

  /** The sum of two counts stays a valid i64. */
  predicate SumFits(a: int, b: int) {
    -I64_LIMIT <= a + b < I64_LIMIT
  }

  /** `Days + Days`: the count of the sum is the sum of the counts. */
  function AddDays(a: Days, b: Days): (r: Days)
    requires SumFits(a.n, b.n)
    ensures r.n == a.n + b.n
  {
    Days(a.n + b.n)
  }

  /** `Months + Months`: the count of the sum is the sum of the counts. */
  function AddMonths(a: Months, b: Months): (r: Months)
    requires SumFits(a.n, b.n)
    ensures r.n == a.n + b.n
  {
    Months(a.n + b.n)
  }

  /** `Years + Years`: the count of the sum is the sum of the counts. */
  function AddYears(a: Years, b: Years): (r: Years)
    requires SumFits(a.n, b.n)
    ensures r.n == a.n + b.n
  {
    Years(a.n + b.n)
  }

  /**
   * Adding days: zero is neutral, the order of the operands does not
   * matter, and neither does the grouping whenever every partial sum fits.
   */
  lemma AddDaysLaws(a: Days, b: Days, c: Days)
    ensures AddDays(a, Days(0)) == a
    ensures SumFits(a.n, b.n) ==> AddDays(a, b) == AddDays(b, a)
    ensures SumFits(a.n, b.n) && SumFits(a.n + b.n, c.n) && SumFits(b.n, c.n) ==>
      AddDays(AddDays(a, b), c) == AddDays(a, AddDays(b, c))
  {
  }

  /** Adding months: the same laws. */
  lemma AddMonthsLaws(a: Months, b: Months, c: Months)
    ensures AddMonths(a, Months(0)) == a
    ensures SumFits(a.n, b.n) ==> AddMonths(a, b) == AddMonths(b, a)
    ensures SumFits(a.n, b.n) && SumFits(a.n + b.n, c.n) && SumFits(b.n, c.n) ==>
      AddMonths(AddMonths(a, b), c) == AddMonths(a, AddMonths(b, c))
  {
  }

  /** Adding years: the same laws. */
  lemma AddYearsLaws(a: Years, b: Years, c: Years)
    ensures AddYears(a, Years(0)) == a
    ensures SumFits(a.n, b.n) ==> AddYears(a, b) == AddYears(b, a)
    ensures SumFits(a.n, b.n) && SumFits(a.n + b.n, c.n) && SumFits(b.n, c.n) ==>
      AddYears(AddYears(a, b), c) == AddYears(a, AddYears(b, c))
  {
  }

  /** The largest count plus one overflows; plus zero does not. */
  lemma AddOverflowEdge()
    ensures !SumFits(I64_LIMIT - 1, 1) && SumFits(I64_LIMIT - 1, 0)
    ensures !SumFits(-I64_LIMIT, -1)
  {
  }
}
