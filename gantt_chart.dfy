/**
 * The chart container: the full pre-order flattening used to find the
 * date range, the expand/collapse toggle and the root-level drag reorder.
 */
module GanttChart {
  import opened TaskModel
  import Calendar
  import TaskBar
  import GanttGrid
  import GanttHeader

  /** Pixel constants of the chart. */
  const DayWidth := 40
  const RowHeight := 48

  // ---------------------------------------------------------------------
  // Flattening every node (the inner `flattenTasks` of the date range)
  // ---------------------------------------------------------------------

  /** Pushes each task and then, when it has a children array, that array's flattening. */
  method FlattenTasks(tasks: seq<Task>) returns (result: seq<Task>)
    ensures result == PreOrder(tasks)
    decreases tasks
  {
    result := [];
    var i := 0;
    while i < |tasks|
      invariant 0 <= i <= |tasks|
      invariant result == PreOrder(tasks[..i])
    {
      var task := tasks[i];
      var sub := [];
      if task.children.Children? {
        sub := FlattenTasks(task.children.list);
      }
      result := result + [task] + sub;
      PreOrderStep(tasks, i);
      i := i + 1;
    }
    assert tasks[..|tasks|] == tasks;
  }

  // ---------------------------------------------------------------------
  // Date range
  // ---------------------------------------------------------------------

  /** The visible interval of days, both ends included. */
  datatype DateRange = DateRange(start: int, end: int)

  /** `allTasks.flatMap(task => [task.startDate, task.endDate])`. */
  function AllDates(all: seq<Task>): (r: seq<int>)
    ensures |r| == 2 * |all|
  {
    if all == [] then [] else [all[0].startDate, all[0].endDate] + AllDates(all[1..])
  }

  /** A day is listed exactly when some task starts or ends on it. */
  lemma {:induction false} AllDatesMembers(all: seq<Task>, d: int)
    ensures d in AllDates(all) <==> exists x :: x in all && (x.startDate == d || x.endDate == d)
  {
    if all != [] {
      AllDatesMembers(all[1..], d);
      assert all == [all[0]] + all[1..];
    }
  }

  /** `Math.min(...s)` for a non-empty list. */
  function MinOf(s: seq<int>): (r: int)
    requires s != []
    ensures r in s && forall x :: x in s ==> r <= x
  {
    if |s| == 1 then s[0]
    else
      var rest := MinOf(s[1..]);
      assert s == [s[0]] + s[1..];
      if s[0] <= rest then s[0] else rest
  }

  /** `Math.max(...s)` for a non-empty list. */
  function MaxOf(s: seq<int>): (r: int)
    requires s != []
    ensures r in s && forall x :: x in s ==> x <= r
  {
    if |s| == 1 then s[0]
    else
      var rest := MaxOf(s[1..]);
      assert s == [s[0]] + s[1..];
      if s[0] >= rest then s[0] else rest
  }

  /**
   * `calculateDateRange`: the month containing `now` for an empty chart,
   * otherwise the earliest and the latest date of any node in the tree.
   */
  function DateRangeOf(tasks: seq<Task>, now: int): (r: DateRange)
    ensures r.start <= r.end
    ensures tasks == [] ==> r == DateRange(Calendar.StartOfMonth(now), Calendar.EndOfMonth(now))
    ensures tasks != [] ==> forall x :: x in PreOrder(tasks) ==>
      r.start <= x.startDate <= r.end && r.start <= x.endDate <= r.end
    ensures tasks != [] ==> exists x :: x in PreOrder(tasks) && (x.startDate == r.start || x.endDate == r.start)
    ensures tasks != [] ==> exists x :: x in PreOrder(tasks) && (x.startDate == r.end || x.endDate == r.end)
  {
    var all := PreOrder(tasks);
    if all == [] then
      DateRange(Calendar.StartOfMonth(now), Calendar.EndOfMonth(now))
    else
      var dates := AllDates(all);
      var lo, hi := MinOf(dates), MaxOf(dates);
      AllDatesMembers(all, lo);
      AllDatesMembers(all, hi);
      assert forall x :: x in all ==> x.startDate in dates && x.endDate in dates by {
        forall x | x in all ensures x.startDate in dates && x.endDate in dates {
          AllDatesMembers(all, x.startDate);
          AllDatesMembers(all, x.endDate);
        }
      }
      DateRange(lo, hi)
  }

  /**
   * With the computed range handed to both the header and the grid, every
   * bar of the grid starts at or after the grid's left edge and ends within
   * the header's width (the sum of the month header widths).
   */
  lemma BarsInsideChart(tasks: seq<Task>, now: int)
    ensures var r := DateRangeOf(tasks, now);
      var rows := GanttGrid.GridRows(GanttGrid.Visible(tasks), r.start, DayWidth, RowHeight);
      forall i :: 0 <= i < |rows| ==>
        0 <= rows[i].bar.left &&
        rows[i].bar.left + rows[i].bar.width <= GanttHeader.TotalOf(GanttHeader.MonthHeaders(r.start, r.end, DayWidth))
  {
    var r := DateRangeOf(tasks, now);
    var flat := GanttGrid.Visible(tasks);
    var rows := GanttGrid.GridRows(flat, r.start, DayWidth, RowHeight);
    GanttHeader.HeadersSpanDays(r.start, r.end, DayWidth);
    GanttGrid.VisibleMembers(tasks);
    forall i | 0 <= i < |rows|
      ensures 0 <= rows[i].bar.left
      ensures rows[i].bar.left + rows[i].bar.width <= (r.end - r.start + 1) * DayWidth
    {
      var x := flat[i];
      assert x in PreOrder(tasks);
      assert tasks != [];
      TaskBar.BarOnGrid(x, r.start, r.end, DayWidth);
    }
  }

  /** The range as the chart computes it, through the imperative flattening. */
  method CalculateDateRange(tasks: seq<Task>, now: int) returns (range: DateRange)
    ensures range == DateRangeOf(tasks, now)
  {
    var allTasks := FlattenTasks(tasks);
    if |allTasks| == 0 {
      return DateRange(Calendar.StartOfMonth(now), Calendar.EndOfMonth(now));
    }
    var allDates := AllDates(allTasks);
    range := DateRange(MinOf(allDates), MaxOf(allDates));
  }

  /** The range the chart draws: both props when both are given, the computed range otherwise. */
  method ChartDateRange(tasks: seq<Task>, propStart: Option<int>, propEnd: Option<int>, now: int)
    returns (range: DateRange)
    ensures propStart.Some? && propEnd.Some? ==> range == DateRange(propStart.value, propEnd.value)
    ensures !(propStart.Some? && propEnd.Some?) ==> range == DateRangeOf(tasks, now)
  {
    if propStart.Some? && propEnd.Some? {
      range := DateRange(propStart.value, propEnd.value);
    } else {
      range := CalculateDateRange(tasks, now);
    }
  }

  // ---------------------------------------------------------------------
  // Expand / collapse
  // ---------------------------------------------------------------------

  /**
   * `toggleInTasks`: a matching node gets `isExpanded: !isExpanded` and is
   * not searched further; any other node with a children array has that
   * array toggled in turn.
   */
  function ToggleInTasks(ts: seq<Task>, taskId: string): (r: seq<Task>)
    ensures |r| == |ts|
  {
    if ts == [] then []
    else
      var t := ts[0];
      var t' :=
        if t.id == taskId then t.(isExpanded := Some(!IsSet(t.isExpanded)))
        else if t.children.Children? then t.(children := Children(ToggleInTasks(t.children.list, taskId)))
        else t;
      [t'] + ToggleInTasks(ts[1..], taskId)
  }

  /**
   * Same ids in the same order at every level, and a children array exactly
   * where the other forest has one.
   */
  predicate SameShape(a: seq<Task>, b: seq<Task>) {
    |a| == |b| &&
    forall i :: 0 <= i < |a| ==>
      a[i].id == b[i].id &&
      a[i].children.Children? == b[i].children.Children? &&
      (a[i].children.Children? ==> SameShape(a[i].children.list, b[i].children.list))
  }

  /** Everything about a node except its flag and its children. */
  function Fields(t: Task): Task {
    t.(isExpanded := None, children := NoChildren)
  }

  /** `after` is `before` with the flag flipped when `before` carries the id. */
  predicate Toggled(after: Task, before: Task, taskId: string) {
    Fields(after) == Fields(before) &&
    after.isExpanded == (if before.id == taskId then Some(!IsSet(before.isExpanded)) else before.isExpanded)
  }

  predicate ToggledEach(after: seq<Task>, before: seq<Task>, taskId: string) {
    |after| == |before| && forall k :: 0 <= k < |before| ==> Toggled(after[k], before[k], taskId)
  }

  /** The toggle keeps the length and order of every children list. */
  lemma {:induction false} ToggleKeepsShape(ts: seq<Task>, taskId: string)
    ensures SameShape(ToggleInTasks(ts, taskId), ts)
  {
    if ts != [] {
      var r := ToggleInTasks(ts, taskId);
      ToggleKeepsShape(ts[1..], taskId);
      if ts[0].id != taskId && ts[0].children.Children? {
        ToggleKeepsShape(ts[0].children.list, taskId);
      } else if ts[0].children.Children? {
        SameShapeReflexive(ts[0].children.list);
      }
      forall i | 1 <= i < |ts|
        ensures r[i] == ToggleInTasks(ts[1..], taskId)[i - 1] && ts[i] == ts[1..][i - 1]
      {
      }
    }
  }

  lemma {:induction false} SameShapeReflexive(ts: seq<Task>)
    ensures SameShape(ts, ts)
    decreases ts
  {
    forall i | 0 <= i < |ts| && ts[i].children.Children?
      ensures SameShape(ts[i].children.list, ts[i].children.list)
    {
      SameShapeReflexive(ts[i].children.list);
    }
  }

  /**
   * Read node by node in the full listing, with unique ids: the node with
   * the id has its flag flipped (undefined counting as false), every node
   * keeps all its other fields, and every other node keeps its flag.
   */
  lemma {:induction false} ToggleFlipsOnlyTarget(ts: seq<Task>, taskId: string)
    requires UniqueIds(ts)
    ensures ToggledEach(PreOrder(ToggleInTasks(ts, taskId)), PreOrder(ts), taskId)
  {
    if ts != [] {
      var t := ts[0];
      var r := ToggleInTasks(ts, taskId);
      var kids := Kids(t);
      UniqueParts(ts);
      ToggleFlipsOnlyTarget(ts[1..], taskId);
      assert r[1..] == ToggleInTasks(ts[1..], taskId);
      assert PreOrder(ts) == [t] + PreOrder(kids) + PreOrder(ts[1..]);
      assert PreOrder(r) == [r[0]] + PreOrder(Kids(r[0])) + PreOrder(r[1..]);
      if t.id == taskId {
        assert Kids(r[0]) == kids;
        assert forall k :: 0 <= k < |PreOrder(kids)| ==> Ids(PreOrder(kids))[k] == PreOrder(kids)[k].id;
        UntouchedEach(PreOrder(kids), taskId);
      } else if t.children.Children? {
        ToggleFlipsOnlyTarget(kids, taskId);
      } else {
        assert Kids(r[0]) == [] == kids;
      }
      ToggledConcat([r[0]], PreOrder(Kids(r[0])), [t], PreOrder(kids), taskId);
      ToggledConcat([r[0]] + PreOrder(Kids(r[0])), PreOrder(r[1..]), [t] + PreOrder(kids), PreOrder(ts[1..]), taskId);
    }
  }

  lemma UntouchedEach(s: seq<Task>, taskId: string)
    requires forall k :: 0 <= k < |s| ==> s[k].id != taskId
    ensures ToggledEach(s, s, taskId)
  {
  }

  lemma ToggledConcat(a: seq<Task>, b: seq<Task>, c: seq<Task>, d: seq<Task>, taskId: string)
    requires ToggledEach(a, c, taskId) && ToggledEach(b, d, taskId)
    ensures ToggledEach(a + b, c + d, taskId)
  {
    forall k | 0 <= k < |c + d| ensures Toggled((a + b)[k], (c + d)[k], taskId) {
      if k >= |c| {
        assert (a + b)[k] == b[k - |a|] && (c + d)[k] == d[k - |c|];
      }
    }
  }

  /** An id that no node carries leaves the tree as it was. */
  lemma {:induction false} ToggleAbsent(ts: seq<Task>, taskId: string)
    requires taskId !in Ids(PreOrder(ts))
    ensures ToggleInTasks(ts, taskId) == ts
  {
    if ts != [] {
      var a := PreOrder(Kids(ts[0]));
      assert PreOrder(ts) == [ts[0]] + a + PreOrder(ts[1..]);
      IdsAppend([ts[0]] + a, PreOrder(ts[1..]));
      IdsAppend([ts[0]], a);
      ToggleAbsent(ts[1..], taskId);
      if ts[0].children.Children? {
        ToggleAbsent(ts[0].children.list, taskId);
      }
      assert ts == [ts[0]] + ts[1..];
    }
  }

  /** Toggling twice restores the tree when every node with the id has a defined flag. */
  lemma {:induction false} ToggleTwice(ts: seq<Task>, taskId: string)
    requires forall x :: x in PreOrder(ts) && x.id == taskId ==> x.isExpanded.Some?
    ensures ToggleInTasks(ToggleInTasks(ts, taskId), taskId) == ts
  {
    if ts != [] {
      var t := ts[0];
      assert PreOrder(ts) == [t] + PreOrder(Kids(t)) + PreOrder(ts[1..]);
      var once := ToggleInTasks(ts, taskId);
      var twice := ToggleInTasks(once, taskId);
      assert once[1..] == ToggleInTasks(ts[1..], taskId);
      assert twice[1..] == ToggleInTasks(once[1..], taskId);
      ToggleTwice(ts[1..], taskId);
      if t.id == taskId {
        assert t in PreOrder(ts);
        assert t.isExpanded.Some?;
        assert once[0] == t.(isExpanded := Some(!IsSet(t.isExpanded)));
        assert twice[0] == once[0].(isExpanded := Some(!IsSet(once[0].isExpanded)));
        assert twice[0].isExpanded == t.isExpanded by {
          assert once[0].isExpanded == Some(!t.isExpanded.value);
        }
        assert twice[0] == t;
      } else if t.children.Children? {
        ToggleTwice(t.children.list, taskId);
        assert twice[0] == t;
      }
      assert twice == [twice[0]] + twice[1..];
      assert ts == [t] + ts[1..];
    }
  }

  /** An undefined flag toggled twice ends as `false`, not undefined. */
  lemma ToggleTwiceUndefined(t: Task)
    requires t.isExpanded == None
    ensures ToggleInTasks(ToggleInTasks([t], t.id), t.id) == [t.(isExpanded := Some(false))]
  {
    assert ToggleInTasks([t], t.id) == [t.(isExpanded := Some(true))];
  }

  // ---------------------------------------------------------------------
  // Root-level drag reorder
  // ---------------------------------------------------------------------

  /** The drop event: the dragged item's id and the id under the pointer, if any. */
  datatype DragEndEvent = DragEndEvent(activeId: string, overId: Option<string>)

  /** `findIndex` by id over the root list: the first match, or -1. */
  function FindIndex(ts: seq<Task>, id: string): (r: int)
    ensures -1 <= r < |ts|
    ensures r == -1 <==> id !in Ids(ts)
    ensures r >= 0 ==> ts[r].id == id && forall j :: 0 <= j < r ==> ts[j].id != id
  {
    if ts == [] then -1
    else if ts[0].id == id then 0
    else
      var k := FindIndex(ts[1..], id);
      assert Ids(ts) == [ts[0].id] + Ids(ts[1..]);
      if k == -1 then -1 else k + 1
  }

  /** `arrayMove`: remove the element at `from`, then insert it at `to`. */
  function ArrayMove<T>(s: seq<T>, from: nat, to: nat): (r: seq<T>)
    requires from < |s| && to < |s|
    ensures |r| == |s| && r[to] == s[from]
  {
    var rest := s[..from] + s[from + 1..];
    rest[..to] + [s[from]] + rest[to..]
  }

  /** A move only reorders: the same elements, each as often as before. */
  lemma ArrayMovePermutes<T>(s: seq<T>, from: nat, to: nat)
    requires from < |s| && to < |s|
    ensures multiset(ArrayMove(s, from, to)) == multiset(s)
  {
    var rest := s[..from] + s[from + 1..];
    assert multiset(s) == multiset(rest) + multiset{s[from]} by {
      assert s == s[..from] + [s[from]] + s[from + 1..];
    }
    assert rest == rest[..to] + rest[to..];
  }

  /**
   * The other elements keep their order: those outside the two indices stay
   * in place, and those between them shift by one towards `from`.
   */
  lemma ArrayMoveShifts<T>(s: seq<T>, from: nat, to: nat)
    requires from < |s| && to < |s|
    ensures var r := ArrayMove(s, from, to);
      forall k :: 0 <= k < |s| && (k < from || to < k) && (k < to || from < k) ==> r[k] == s[k]
    ensures var r := ArrayMove(s, from, to);
      from < to ==> forall k :: from <= k < to ==> r[k] == s[k + 1]
    ensures var r := ArrayMove(s, from, to);
      to < from ==> forall k :: to < k <= from ==> r[k] == s[k - 1]
  {
  }

  /** Moving back from the target index to the source index undoes a move. */
  lemma ArrayMoveInverse<T>(s: seq<T>, from: nat, to: nat)
    requires from < |s| && to < |s|
    ensures ArrayMove(ArrayMove(s, from, to), to, from) == s
  {
    var x := s[from];
    var rest := s[..from] + s[from + 1..];
    var m := ArrayMove(s, from, to);
    assert m == rest[..to] + [x] + rest[to..];
    assert m[..to] + m[to + 1..] == rest by {
      assert m[..to] == rest[..to];
      assert m[to + 1..] == rest[to..];
    }
    assert rest[..from] == s[..from] && rest[from..] == s[from + 1..];
    assert s == s[..from] + [x] + s[from + 1..];
  }

  /** Dragging A onto C in [A, B, C, D] gives [B, C, A, D]. */
  lemma ArrayMoveExample<T>(a: T, b: T, c: T, d: T)
    ensures ArrayMove([a, b, c, d], 0, 2) == [b, c, a, d]
  {
    var s := [a, b, c, d];
    var rest := s[..0] + s[1..];
    assert rest == [b, c, d];
    assert rest[..2] == [b, c] && rest[2..] == [d];
  }

  /**
   * `handleDragEnd`: `None` when nothing is reported to the parent (no drop
   * target, a drop onto itself, or an id that is not a root id); otherwise
   * the root list with the dragged task moved to the target's index.
   */
  function HandleDragEnd(tasks: seq<Task>, event: DragEndEvent): (r: Option<seq<Task>>)
    ensures r.Some? <==>
      event.overId.Some? && event.overId.value != event.activeId &&
      event.activeId in Ids(tasks) && event.overId.value in Ids(tasks)
  {
    match event.overId
    case None => None
    case Some(overId) =>
      if event.activeId == overId then None
      else
        var oldIndex := FindIndex(tasks, event.activeId);
        var newIndex := FindIndex(tasks, overId);
        if oldIndex != -1 && newIndex != -1 then Some(ArrayMove(tasks, oldIndex, newIndex))
        else None
  }

  /**
   * A reported reorder is a permutation of the roots that puts the dragged
   * task at the target's old index and shifts only the roots between the
   * two indices.
   */
  lemma DragEndMoves(tasks: seq<Task>, event: DragEndEvent)
    requires HandleDragEnd(tasks, event).Some?
    ensures var r := HandleDragEnd(tasks, event).value;
      var from, to := FindIndex(tasks, event.activeId), FindIndex(tasks, event.overId.value);
      0 <= from < |tasks| && 0 <= to < |tasks| && from != to &&
      |r| == |tasks| && multiset(r) == multiset(tasks) &&
      r[to] == tasks[from] && r[to].id == event.activeId &&
      forall k :: 0 <= k < |tasks| && (k < from || to < k) && (k < to || from < k) ==> r[k] == tasks[k]
  {
    var from, to := FindIndex(tasks, event.activeId), FindIndex(tasks, event.overId.value);
    ArrayMovePermutes(tasks, from, to);
    ArrayMoveShifts(tasks, from, to);
  }
}
