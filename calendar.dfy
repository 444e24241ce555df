/**
 * A minimal proleptic Gregorian calendar over day numbers, standing in for
 * the date library's `startOfMonth`, `endOfMonth` and `addMonths`.
 *
 * Day 0 is 1970-01-01. Months are numbered consecutively by a month index
 * `m`: its year is `m / 12` and its month of the year `m % 12`, 0 being
 * January (Dafny's `/` and `%` round towards minus infinity here, so this
 * also holds before year 0).
 */
module Calendar {

  predicate IsLeapYear(y: int) {
    y % 4 == 0 && (y % 100 != 0 || y % 400 == 0)
  }

  /** The length of month index `m`. */
  function DaysInMonth(m: int): (n: int)
    ensures 28 <= n <= 31
    ensures n == 29 <==> m % 12 == 1 && IsLeapYear(m / 12)
  {
    var mo := m % 12;
    if mo == 1 then (if IsLeapYear(m / 12) then 29 else 28)
    else if mo == 3 || mo == 5 || mo == 8 || mo == 10 then 30
    else 31
  }

  /** The month index of January 1970, the month that starts on day 0. */
  const EpochMonth := 1970 * 12

  /**
   * The day number of the first day of month index `m`: the months between
   * the epoch month and `m`, laid end to end.
   */
  function MonthStart(m: int): int
    decreases if m < EpochMonth then EpochMonth - m else m - EpochMonth
  {
    if m == EpochMonth then 0
    else if m > EpochMonth then MonthStart(m - 1) + DaysInMonth(m - 1)
    else MonthStart(m + 1) - DaysInMonth(m)
  }

  /** Consecutive month indices are consecutive runs of days. */
  lemma MonthStep(m: int)
    ensures MonthStart(m + 1) == MonthStart(m) + DaysInMonth(m)
  {
  }

  /** Month starts strictly increase with the month index. */
  lemma {:induction false} MonthStartMonotone(m: int, n: int)
    requires m <= n
    ensures MonthStart(m) + 28 * (n - m) <= MonthStart(n)
    decreases n - m
  {
    if m < n {
      MonthStep(m);
      MonthStartMonotone(m + 1, n);
    }
  }

  /** The month index of the month containing day `d`. */
  function MonthOf(d: int): (m: int)
    ensures MonthStart(m) <= d < MonthStart(m + 1)
  {
    if 0 <= d then MonthUp(d, EpochMonth) else MonthDown(d, EpochMonth - 1)
  }

  function MonthUp(d: int, m: int): (r: int)
    requires MonthStart(m) <= d
    ensures MonthStart(r) <= d < MonthStart(r + 1)
    decreases d - MonthStart(m)
  {
    MonthStep(m);
    if d < MonthStart(m + 1) then m else MonthUp(d, m + 1)
  }

  function MonthDown(d: int, m: int): (r: int)
    requires d < MonthStart(m + 1)
    ensures MonthStart(r) <= d < MonthStart(r + 1)
    decreases MonthStart(m + 1) - d
  {
    MonthStep(m);
    if MonthStart(m) <= d then m else MonthDown(d, m - 1)
  }

  /** Only one month contains a given day. */
  lemma MonthOfUnique(d: int, m: int)
    requires MonthStart(m) <= d < MonthStart(m + 1)
    ensures MonthOf(d) == m
  {
    var k := MonthOf(d);
    if k < m {
      MonthStartMonotone(k + 1, m);
    } else if m < k {
      MonthStartMonotone(m + 1, k);
    }
  }

  /** A later day is never in an earlier month. */
  lemma MonthOfMonotone(d: int, e: int)
    requires d <= e
    ensures MonthOf(d) <= MonthOf(e)
  {
    if MonthOf(e) < MonthOf(d) {
      MonthStartMonotone(MonthOf(e) + 1, MonthOf(d));
    }
  }

  /** `startOfMonth`: the first day of the month containing `d`. */
  function StartOfMonth(d: int): (r: int)
    ensures r <= d && d - r < DaysInMonth(MonthOf(d))
    ensures r == MonthStart(MonthOf(d))
  {
    MonthStep(MonthOf(d));
    MonthStart(MonthOf(d))
  }

  /** `endOfMonth`: the last day of the month containing `d`. */
  function EndOfMonth(d: int): (r: int)
    ensures d <= r && r - d < DaysInMonth(MonthOf(d))
    ensures r == MonthStart(MonthOf(d) + 1) - 1
  {
    MonthStep(MonthOf(d));
    MonthStart(MonthOf(d) + 1) - 1
  }

  /**
   * `addMonths(d, 1)`: the same day of the next month, clamped to that
   * month's last day.
   */
  function AddMonth(d: int): (r: int)
    ensures MonthOf(r) == MonthOf(d) + 1
  {
    var m := MonthOf(d);
    var dayOfMonth := d - MonthStart(m);
    var clamped := if dayOfMonth < DaysInMonth(m + 1) then dayOfMonth else DaysInMonth(m + 1) - 1;
    MonthStep(m + 1);
    MonthOfUnique(MonthStart(m + 1) + clamped, m + 1);
    MonthStart(m + 1) + clamped
  }

  /** Adding a month to a month's first day gives the next month's first day. */
  lemma AddMonthToFirstDay(m: int)
    ensures AddMonth(MonthStart(m)) == MonthStart(m + 1)
  {
    MonthStep(m);
    MonthOfUnique(MonthStart(m), m);
  }

  /**
   * `eachDayOfInterval`: every day from `start` to `end`, both included, in
   * order. The chart only asks for intervals with `start <= end`.
   */
  function EachDay(start: int, end: int): (days: seq<int>)
    requires start <= end
    ensures |days| == end - start + 1
    ensures forall i :: 0 <= i < |days| ==> days[i] == start + i
    decreases end - start
  {
    if start == end then [start] else [start] + EachDay(start + 1, end)
  }
}
