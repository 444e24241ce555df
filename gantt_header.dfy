/**
 * The chart header: one month header per month the interval touches, as
 * wide as the days of that month that lie in the interval, above one day
 * header per day.
 */
module GanttHeader {
  import opened Calendar
  import TaskBar

  /** A month header: the first day of its month and its width in pixels. */
  datatype MonthHeader = MonthHeader(date: int, width: int)

  function Min(a: int, b: int): int { if a < b then a else b }
  function Max(a: int, b: int): int { if a < b then b else a }

  /**
   * How many days of month index `m` lie in `start .. end`: from the later of
   * the month's first day and `start` to the earlier of its last day and `end`.
   */
  function DaysInView(m: int, start: int, end: int): int {
    Min(MonthStart(m + 1) - 1, end) - Max(MonthStart(m), start) + 1
  }

  /** The header of month index `m`. */
  function HeaderOf(m: int, start: int, end: int, dayWidth: int): MonthHeader {
    MonthHeader(MonthStart(m), DaysInView(m, start, end) * dayWidth)
  }

  /** The month headers of `start .. end`: one per month from the month of `start` to the month of `end`. */
  function MonthHeaders(start: int, end: int, dayWidth: int): (hs: seq<MonthHeader>)
    requires start <= end
    ensures |hs| == MonthOf(end) - MonthOf(start) + 1
  {
    MonthOfMonotone(start, end);
    HeadersFrom(MonthOf(start), MonthOf(end) - MonthOf(start) + 1, start, end, dayWidth)
  }

  /** The headers of the `n` months from month index `first` on. */
  function HeadersFrom(first: int, n: nat, start: int, end: int, dayWidth: int): seq<MonthHeader> {
    seq(n, i => HeaderOf(first + i, start, end, dayWidth))
  }

  /** One more month appends that month's header. */
  lemma HeadersSnoc(first: int, n: nat, start: int, end: int, dayWidth: int)
    ensures HeadersFrom(first, n + 1, start, end, dayWidth)
      == HeadersFrom(first, n, start, end, dayWidth) + [HeaderOf(first + n, start, end, dayWidth)]
  {
  }

  /**
   * The header's month loop: from the first day of the month of `startDate`
   * up to the last day of the month of `endDate`, one header per month, as
   * wide as the month's days clipped to the interval, then on to the same
   * day of the next month.
   */
  method RenderMonths(startDate: int, endDate: int, dayWidth: int) returns (months: seq<MonthHeader>)
    requires startDate <= endDate
    ensures months == MonthHeaders(startDate, endDate, dayWidth)
  {
    months := [];
    var currentMonth := StartOfMonth(startDate);
    var lastMonth := EndOfMonth(endDate);
    ghost var first := MonthOf(startDate);
    ghost var last := MonthOf(endDate);
    ghost var m := first;
    MonthOfMonotone(startDate, endDate);
    while currentMonth <= lastMonth
      invariant first <= m <= last + 1
      invariant currentMonth == MonthStart(m)
      invariant months == HeadersFrom(first, m - first, startDate, endDate, dayWidth)
      decreases lastMonth - currentMonth
    {
      assert m <= last;
      var header := MonthEntry(currentMonth, startDate, endDate, dayWidth, m);
      HeadersSnoc(first, m - first, startDate, endDate, dayWidth);
      MonthTurn(m, startDate, endDate);
      months := months + [header];
      currentMonth := AddMonth(currentMonth);
      m := m + 1;
    }
    assert m == last + 1 by {
      if m <= last {
        MonthStartMonotone(m, last);
      }
    }
  }

  /**
   * One turn of the month loop: the month starting on `currentMonth`,
   * clipped to `startDate .. endDate`, as wide as its days in view.
   */
  method MonthEntry(currentMonth: int, startDate: int, endDate: int, dayWidth: int, ghost m: int)
    returns (header: MonthHeader)
    requires startDate <= endDate && MonthOf(startDate) <= m <= MonthOf(endDate) && currentMonth == MonthStart(m)
    ensures header == HeaderOf(m, startDate, endDate, dayWidth)
  {
    MonthTurn(m, startDate, endDate);
    var monthStart := if currentMonth > startDate then currentMonth else startDate;
    var monthEnd := if EndOfMonth(currentMonth) < endDate then EndOfMonth(currentMonth) else endDate;
    var daysInView := |EachDay(monthStart, monthEnd)|;
    assert daysInView == DaysInView(m, startDate, endDate);
    header := MonthHeader(currentMonth, daysInView * dayWidth);
  }

  /** The clipped interval of one turn of the month loop, as the loop computes it. */
  lemma MonthTurn(m: int, start: int, end: int)
    requires start <= end && MonthOf(start) <= m <= MonthOf(end)
    ensures var cur := MonthStart(m);
      var lo := if cur > start then cur else start;
      var hi := if EndOfMonth(cur) < end then EndOfMonth(cur) else end;
      lo <= hi && hi - lo + 1 == DaysInView(m, start, end)
    ensures AddMonth(MonthStart(m)) == MonthStart(m + 1) > MonthStart(m)
  {
    MonthInView(m, start, end);
  }

  lemma HeadersAt(start: int, end: int, dayWidth: int)
    requires start <= end
    ensures forall i :: 0 <= i < |MonthHeaders(start, end, dayWidth)| ==>
      MonthHeaders(start, end, dayWidth)[i] == HeaderOf(MonthOf(start) + i, start, end, dayWidth)
  {
  }

  /**
   * One turn of the month loop for month index `m` of the interval: the
   * clipped interval is never empty, so the day count is the month's days
   * in view, and adding a month reaches the next month's first day.
   */
  lemma MonthInView(m: int, start: int, end: int)
    requires start <= end && MonthOf(start) <= m <= MonthOf(end)
    ensures MonthOf(MonthStart(m)) == m
    ensures EndOfMonth(MonthStart(m)) == MonthStart(m + 1) - 1
    ensures Max(MonthStart(m), start) <= Min(EndOfMonth(MonthStart(m)), end)
    ensures AddMonth(MonthStart(m)) == MonthStart(m + 1) > MonthStart(m)
  {
    MonthStep(m);
    MonthOfUnique(MonthStart(m), m);
    MonthStartMonotone(m, MonthOf(end));
    MonthStartMonotone(MonthOf(start) + 1, m + 1);
    AddMonthToFirstDay(m);
  }

  // ---------------------------------------------------------------------
  // What the headers cover
  // ---------------------------------------------------------------------

  /**
   * Every month of the row shows at least one day and at most its own
   * days; the months strictly between the first and the last show all
   * their days.
   */
  lemma DaysInViewBounds(m: int, start: int, end: int)
    requires start <= end && MonthOf(start) <= m <= MonthOf(end)
    ensures 1 <= DaysInView(m, start, end) <= DaysInMonth(m)
    ensures MonthOf(start) < m < MonthOf(end) ==> DaysInView(m, start, end) == DaysInMonth(m)
  {
    var ms, next := MonthStart(m), MonthStart(m + 1);
    MonthStep(m);
    MonthEdges(m, start, end);
    ClipBounds(ms, next, start, end);
  }

  /** A month between those of `start` and `end` overlaps `start .. end`, and lies inside it when strictly between. */
  lemma MonthEdges(m: int, start: int, end: int)
    requires MonthOf(start) <= m <= MonthOf(end)
    ensures MonthStart(m) <= end && start < MonthStart(m + 1)
    ensures MonthOf(start) < m < MonthOf(end) ==> start < MonthStart(m) && MonthStart(m + 1) <= end
  {
    var a, b := MonthOf(start), MonthOf(end);
    assert MonthStart(m) <= MonthStart(b) by { MonthStartMonotone(m, b); }
    assert MonthStart(a + 1) <= MonthStart(m + 1) by { MonthStartMonotone(a + 1, m + 1); }
    if a < m < b {
      assert MonthStart(a + 1) <= MonthStart(m) by { MonthStartMonotone(a + 1, m); }
      assert MonthStart(m + 1) <= MonthStart(b) by { MonthStartMonotone(m + 1, b); }
    }
  }

  /** The part of the days `ms .. next - 1` inside `start .. end`, when the two overlap. */
  lemma ClipBounds(ms: int, next: int, start: int, end: int)
    requires ms < next && start <= end && ms <= end && start < next
    ensures 1 <= Min(next - 1, end) - Max(ms, start) + 1 <= next - ms
    ensures start < ms && next <= end ==> Min(next - 1, end) - Max(ms, start) + 1 == next - ms
  {
  }

  /**
   * The header dates are month starts: the first is the first day of the
   * month of `start`, the last that of the month of `end`, and each is one
   * month after the one before it.
   */
  lemma HeaderDates(start: int, end: int, dayWidth: int)
    requires start <= end
    ensures var hs := MonthHeaders(start, end, dayWidth);
      hs[0].date == StartOfMonth(start) && hs[|hs| - 1].date == StartOfMonth(end) &&
      forall i :: 0 <= i < |hs| - 1 ==> hs[i + 1].date == AddMonth(hs[i].date)
  {
    var hs := MonthHeaders(start, end, dayWidth);
    var first, n := MonthOf(start), |hs|;
    HeaderDateAt(start, end, dayWidth, 0);
    HeaderDateAt(start, end, dayWidth, n - 1);
    forall i | 0 <= i < n - 1
      ensures hs[i + 1].date == AddMonth(hs[i].date)
    {
      HeaderDateAt(start, end, dayWidth, i);
      HeaderDateAt(start, end, dayWidth, i + 1);
      AddMonthToFirstDay(first + i);
    }
  }

  /** The i-th header is dated on the first day of the i-th month after the month of `start`. */
  lemma HeaderDateAt(start: int, end: int, dayWidth: int, i: int)
    requires start <= end && 0 <= i < |MonthHeaders(start, end, dayWidth)|
    ensures MonthHeaders(start, end, dayWidth)[i].date == MonthStart(MonthOf(start) + i)
  {
    var hs := MonthHeaders(start, end, dayWidth);
    assert hs == HeadersFrom(MonthOf(start), |hs|, start, end, dayWidth);
  }

  /** The sum of the header widths. */
  function TotalOf(hs: seq<MonthHeader>): int {
    if hs == [] then 0 else TotalOf(hs[..|hs| - 1]) + hs[|hs| - 1].width
  }

  /**
   * The headers up to month index `m` span the days from `start` to the last
   * day of month `m`, or to `end` once the last month is reached.
   */
  lemma {:induction false} PrefixWidth(start: int, end: int, dayWidth: int, m: int)
    requires start <= end && MonthOf(start) <= m <= MonthOf(end)
    ensures TotalOf(MonthHeaders(start, end, dayWidth)[..m - MonthOf(start) + 1])
      == (Min(MonthStart(m + 1) - 1, end) - start + 1) * dayWidth
    decreases m - MonthOf(start)
  {
    var hs := MonthHeaders(start, end, dayWidth);
    var n := m - MonthOf(start) + 1;
    PrefixSnoc(start, end, dayWidth, m);
    if m == MonthOf(start) {
      assert hs[..0] == [];
    } else {
      var k := m - 1;
      PrefixWidth(start, end, dayWidth, k);
      assert k + 1 == m && k - MonthOf(start) + 1 == n - 1;
      WidthStep(TotalOf(hs[..n - 1]), MonthStart(m), MonthStart(m + 1), start, end, dayWidth);
    }
  }

  /**
   * The headers up to month `m` are those up to the month before plus the
   * header of `m`; the month before `m` is inside the interval, and so is
   * `m`'s first day unless `m` is the first month.
   */
  lemma PrefixSnoc(start: int, end: int, dayWidth: int, m: int)
    requires start <= end && MonthOf(start) <= m <= MonthOf(end)
    ensures var hs := MonthHeaders(start, end, dayWidth); var n := m - MonthOf(start) + 1;
      TotalOf(hs[..n]) == TotalOf(hs[..n - 1]) + DaysInView(m, start, end) * dayWidth
    ensures m == MonthOf(start) ==> Max(MonthStart(m), start) == start
    ensures MonthOf(start) < m ==> start < MonthStart(m) <= end
  {
    var hs := MonthHeaders(start, end, dayWidth);
    var n := m - MonthOf(start) + 1;
    assert hs[n - 1].width == DaysInView(m, start, end) * dayWidth by { HeadersAt(start, end, dayWidth); }
    assert hs[..n][..n - 1] == hs[..n - 1];
    if MonthOf(start) < m {
      MonthStartMonotone(m, MonthOf(end));
      MonthStartMonotone(MonthOf(start) + 1, m);
    }
  }

  /** Adding the next month's header to the headers before it. */
  lemma WidthStep(total: int, monthStart: int, nextStart: int, start: int, end: int, dayWidth: int)
    requires start < monthStart <= end
    requires total == (Min(monthStart - 1, end) - start + 1) * dayWidth
    ensures total + (Min(nextStart - 1, end) - Max(monthStart, start) + 1) * dayWidth
      == (Min(nextStart - 1, end) - start + 1) * dayWidth
  {
    TaskBar.Distribute(monthStart - start, Min(nextStart - 1, end) - monthStart + 1, dayWidth);
  }

  /**
   * The month headers together are exactly as wide as the day headers:
   * every day of the interval falls under exactly one month header.
   */
  lemma HeadersSpanDays(start: int, end: int, dayWidth: int)
    requires start <= end
    ensures TotalOf(MonthHeaders(start, end, dayWidth)) == |EachDay(start, end)| * dayWidth
  {
    var hs := MonthHeaders(start, end, dayWidth);
    PrefixWidth(start, end, dayWidth, MonthOf(end));
    assert hs[..|hs|] == hs;
  }

  /** The header: its month headers, its day headers (one per day) and its total width. */
  datatype Header = Header(months: seq<MonthHeader>, days: seq<int>, totalWidth: int)

  /** The header of the days `startDate .. endDate`, `dayWidth` pixels per day. */
  method RenderHeader(startDate: int, endDate: int, dayWidth: int) returns (h: Header)
    requires startDate <= endDate
    ensures h.days == EachDay(startDate, endDate)
    ensures h.months == MonthHeaders(startDate, endDate, dayWidth)
    ensures h.totalWidth == TotalOf(h.months) == (endDate - startDate + 1) * dayWidth
  {
    var days := EachDay(startDate, endDate);
    var months := RenderMonths(startDate, endDate, dayWidth);
    HeadersSpanDays(startDate, endDate, dayWidth);
    h := Header(months, days, |days| * dayWidth);
  }
}
