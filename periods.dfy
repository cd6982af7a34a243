/** The cadences at which a recurring extra payment is made or the escrow grows. */
module Periods {

  datatype Option<T> = None | Some(value: T)

  /** The four supported cadences; each carries its cycle length as the enum member's value. */
  datatype Period = Year | HalfYear | Trimester | Month

  /** Every cadence, in the order the enum declares them. */
  const AllPeriods: seq<Period> := [Year, HalfYear, Trimester, Month]

  /** The cycle length of a cadence, in months (the enum member's value). */
  function Months(p: Period): (n: nat)
    ensures n > 0 && 12 % n == 0
    ensures n == 1 || n == 3 || n == 6 || n == 12
  {
    match p
    case Year => 12
    case HalfYear => 6
    case Trimester => 3
    case Month => 1
  }

  /** Looking an enum member up by its value: any length other than 1, 3, 6 or 12 is rejected. */
  function FromMonths(n: int): (r: Option<Period>)
    ensures r.Some? <==> (n == 1 || n == 3 || n == 6 || n == 12)
    ensures r.Some? ==> Months(r.value) == n
  {
    if n == 12 then Some(Year)
    else if n == 6 then Some(HalfYear)
    else if n == 3 then Some(Trimester)
    else if n == 1 then Some(Month)
    else None
  }

  /** The enum is closed: every cadence is one of the four, and the four are distinct. */
  lemma ExactlyFourPeriods(p: Period)
    ensures p in AllPeriods
    ensures |AllPeriods| == 4
    ensures forall i, j :: 0 <= i < j < |AllPeriods| ==> AllPeriods[i] != AllPeriods[j]
  {
  }

  /** A cadence is recovered from its cycle length, so the lengths tell the cadences apart. */
  lemma FromMonthsRoundTrip(p: Period)
    ensures FromMonths(Months(p)) == Some(p)
  {
  }

  /** Two cadences with the same cycle length are the same cadence. */
  lemma MonthsInjective(p: Period, q: Period)
    requires Months(p) == Months(q)
    ensures p == q
  {
    FromMonthsRoundTrip(p);
    FromMonthsRoundTrip(q);
  }
}
