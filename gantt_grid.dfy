/**
 * The chart grid: the flattening of the tree into the visible rows (a
 * node's children only under an expanded node) and one grid row per
 * visible task.
 */
module GanttGrid {
  import opened TaskModel
  import Calendar
  import TaskBar

  // ---------------------------------------------------------------------
  // The visible rows
  // ---------------------------------------------------------------------

  /** The children a node shows: its children array when it is present and the node is expanded. */
  function Shown(t: Task): seq<Task> {
    if t.children.Children? && IsSet(t.isExpanded) then t.children.list else []
  }

  /** The visible listing: each node, then the visible listing of the children it shows. */
  function Visible(ts: seq<Task>): seq<Task> {
    if ts == [] then []
    else
      [ts[0]] + (if ts[0].children.Children? && IsSet(ts[0].isExpanded) then Visible(ts[0].children.list) else [])
        + Visible(ts[1..])
  }

  lemma {:induction false} VisibleAppend(a: seq<Task>, b: seq<Task>)
    ensures Visible(a + b) == Visible(a) + Visible(b)
    decreases |a|
  {
    if a == [] {
      assert a + b == b;
    } else {
      assert (a + b)[0] == a[0];
      assert (a + b)[1..] == a[1..] + b;
      VisibleAppend(a[1..], b);
    }
  }

  /** The visible listing of a non-empty forest: first root, its shown children's listing, the other roots'. */
  lemma VisibleUnfold(ts: seq<Task>)
    requires ts != []
    ensures Visible(ts) == [ts[0]] + Visible(Shown(ts[0])) + Visible(ts[1..])
  {
  }

  /** Extending a prefix of the roots by one root extends the visible listing by that root's visible segment. */
  lemma VisibleStep(ts: seq<Task>, i: nat)
    requires i < |ts|
    ensures Visible(ts[..i + 1]) == Visible(ts[..i]) + [ts[i]] + Visible(Shown(ts[i]))
  {
    assert ts[..i + 1] == ts[..i] + [ts[i]];
    VisibleAppend(ts[..i], [ts[i]]);
    VisibleUnfold([ts[i]]);
    assert [ts[i]][1..] == [];
  }

  /**
   * `flattenTasks` of the grid: pushes each task and, when it has a
   * children array and is expanded, that array's visible flattening.
   */
  method FlattenVisible(tasks: seq<Task>) returns (result: seq<Task>)
    ensures result == Visible(tasks)
    decreases tasks
  {
    result := [];
    var i := 0;
    while i < |tasks|
      invariant 0 <= i <= |tasks|
      invariant result == Visible(tasks[..i])
    {
      var task := tasks[i];
      var sub := [];
      if task.children.Children? && IsSet(task.isExpanded) {
        sub := FlattenVisible(task.children.list);
      }
      result := result + [task] + sub;
      VisibleStep(tasks, i);
      i := i + 1;
    }
    assert tasks[..|tasks|] == tasks;
  }

  // ---------------------------------------------------------------------
  // Properties of the visible listing
  // ---------------------------------------------------------------------

  lemma {:induction false} SubsequenceConcat<T>(a: seq<T>, b: seq<T>, c: seq<T>, d: seq<T>)
    requires IsSubsequence(a, b) && IsSubsequence(c, d)
    ensures IsSubsequence(a + c, b + d)
    decreases |b|
  {
    if b == [] {
      assert a + c == c && b + d == d;
    } else if a == [] {
      assert a + c == c;
      SubsequenceOfSuffix(c, d, b);
    } else {
      assert (a + c)[0] == a[0] && (b + d)[0] == b[0];
      assert (b + d)[1..] == b[1..] + d;
      if a[0] == b[0] {
        assert (a + c)[1..] == a[1..] + c;
        SubsequenceConcat(a[1..], b[1..], c, d);
      } else {
        SubsequenceConcat(a, b[1..], c, d);
      }
    }
  }

  lemma {:induction false} SubsequenceEmpty<T>(b: seq<T>)
    ensures IsSubsequence([], b)
  {
  }

  lemma {:induction false} SubsequenceSelf<T>(a: seq<T>)
    ensures IsSubsequence(a, a)
  {
    if a != [] {
      SubsequenceSelf(a[1..]);
    }
  }

  lemma {:induction false} SubsequenceLength<T>(a: seq<T>, b: seq<T>)
    requires IsSubsequence(a, b)
    ensures |a| <= |b|
    decreases |b|
  {
    if a != [] {
      if a[0] == b[0] {
        SubsequenceLength(a[1..], b[1..]);
      } else {
        SubsequenceLength(a, b[1..]);
      }
    }
  }

  lemma {:induction false} SubsequenceMembers<T>(a: seq<T>, b: seq<T>)
    requires IsSubsequence(a, b)
    ensures forall x :: x in a ==> x in b
    decreases |b|
  {
    if a != [] {
      assert b == [b[0]] + b[1..];
      if a[0] == b[0] {
        SubsequenceMembers(a[1..], b[1..]);
        assert a == [a[0]] + a[1..];
      } else {
        SubsequenceMembers(a, b[1..]);
      }
    }
  }

  /** The visible listing is the full pre-order listing with the hidden subtrees left out. */
  lemma {:induction false} VisibleIsSubsequence(ts: seq<Task>)
    ensures IsSubsequence(Visible(ts), PreOrder(ts))
  {
    if ts != [] {
      var t := ts[0];
      var shown := if t.children.Children? && IsSet(t.isExpanded) then Visible(t.children.list) else [];
      var all := if t.children.Children? then PreOrder(t.children.list) else [];
      assert IsSubsequence(shown, all) by {
        if t.children.Children? {
          if IsSet(t.isExpanded) {
            VisibleIsSubsequence(t.children.list);
          } else {
            SubsequenceEmpty(all);
          }
        }
      }
      VisibleIsSubsequence(ts[1..]);
      SubsequenceConcat([t], [t], shown, all);
      SubsequenceConcat([t] + shown, [t] + all, Visible(ts[1..]), PreOrder(ts[1..]));
    }
  }

  /** There are never more visible rows than nodes. */
  lemma VisibleCount(ts: seq<Task>)
    ensures |Visible(ts)| <= Size(ts)
  {
    VisibleIsSubsequence(ts);
    SubsequenceLength(Visible(ts), PreOrder(ts));
    PreOrderLength(ts);
  }

  /** Every node with a children array is expanded. */
  predicate AllExpanded(ts: seq<Task>) {
    forall x :: x in PreOrder(ts) ==> x.children.Children? ==> IsSet(x.isExpanded)
  }

  /** With every node expanded, every node is visible: the visible listing is the full listing. */
  lemma {:induction false} ExpandedShowsAll(ts: seq<Task>)
    requires AllExpanded(ts)
    ensures Visible(ts) == PreOrder(ts)
  {
    if ts != [] {
      PreOrderUnfold(ts);
      if ts[0].children.Children? {
        ExpandedShowsAll(ts[0].children.list);
      }
      ExpandedShowsAll(ts[1..]);
    }
  }

  /** All roots are listed, in their order. */
  lemma {:induction false} RootsVisible(ts: seq<Task>)
    ensures IsSubsequence(ts, Visible(ts))
  {
    if ts != [] {
      var shown := Visible(Shown(ts[0]));
      var rest := Visible(ts[1..]);
      var v := Visible(ts);
      RootsVisible(ts[1..]);
      SubsequenceOfSuffix(ts[1..], rest, shown);
      assert v != [] && v[0] == ts[0] && v[1..] == shown + rest by {
        VisibleUnfold(ts);
      }
    }
  }

  /**
   * At every visible position, the node is immediately followed by the
   * visible listing of the children it shows (none when it is collapsed,
   * has an undefined flag or has no children array).
   */
  lemma {:induction false} ShownFollows(ts: seq<Task>, k: nat)
    requires k < |Visible(ts)|
    ensures var v := Visible(ts); var sub := Visible(Shown(v[k]));
            k + 1 + |sub| <= |v| && v[k + 1..k + 1 + |sub|] == sub
    decreases ts, 1
  {
    var a := Visible(Shown(ts[0]));
    VisibleUnfold(ts);
    if k == 0 {
      assert Visible(ts)[0] == ts[0];
      MiddleOf([ts[0]], a, Visible(ts[1..]));
    } else if k < 1 + |a| {
      ShownFollowsKids(ts, k);
    } else {
      ShownFollowsRest(ts, k);
    }
  }

  lemma {:induction false} ShownFollowsKids(ts: seq<Task>, k: nat)
    requires ts != [] && 1 <= k < 1 + |Visible(Shown(ts[0]))|
    ensures k < |Visible(ts)|
    ensures var v := Visible(ts); var sub := Visible(Shown(v[k]));
            k + 1 + |sub| <= |v| && v[k + 1..k + 1 + |sub|] == sub
    decreases ts, 0
  {
    var list := Shown(ts[0]);
    var a := Visible(list);
    var i := k - 1;
    ShownFollows(list, i);
    var sub := Visible(Shown(a[i]));
    var v := Visible(ts);
    assert v == [ts[0]] + a + Visible(ts[1..]) by { VisibleUnfold(ts); }
    FollowsInMiddle(v, [ts[0]], a, Visible(ts[1..]), k, i, sub);
  }

  lemma {:induction false} ShownFollowsRest(ts: seq<Task>, k: nat)
    requires ts != [] && 1 + |Visible(Shown(ts[0]))| <= k < |Visible(ts)|
    ensures var v := Visible(ts); var sub := Visible(Shown(v[k]));
            k + 1 + |sub| <= |v| && v[k + 1..k + 1 + |sub|] == sub
    decreases ts, 0
  {
    var x := [ts[0]] + Visible(Shown(ts[0]));
    var b := Visible(ts[1..]);
    assert Visible(ts) == x + b by { VisibleUnfold(ts); }
    var j := k - |x|;
    ShownFollows(ts[1..], j);
    FollowsAtEnd(Visible(ts), x, b, k, j, Visible(Shown(b[j])));
  }

  /** Every visible node is a node of the tree. */
  lemma VisibleMembers(ts: seq<Task>)
    ensures forall x :: x in Visible(ts) ==> x in PreOrder(ts)
  {
    VisibleIsSubsequence(ts);
    SubsequenceMembers(Visible(ts), PreOrder(ts));
  }

  /**
   * With unique ids, a node that does not show its children hides its whole
   * subtree: no node below it is visible.
   */
  lemma {:induction false} CollapsedHidesSubtree(ts: seq<Task>, x: Task)
    requires UniqueIds(ts) && x in PreOrder(ts) && !(x.children.Children? && IsSet(x.isExpanded))
    ensures forall y :: y in PreOrder(Kids(x)) ==> y !in Visible(ts)
  {
    var t, rest := ts[0], ts[1..];
    PreOrderUnfold(ts);
    var shown := if t.children.Children? && IsSet(t.isExpanded) then Visible(t.children.list) else [];
    assert Visible(ts) == [t] + shown + Visible(rest);
    VisibleMembers(rest);
    UniqueParts(ts);
    forall y | y in PreOrder(Kids(x))
      ensures y !in Visible(ts)
    {
      if x == t {
        assert shown == [];
        IdOfTask(PreOrder(Kids(t)), y);
        NotAmongIds(PreOrder(rest), y);
      } else if x in PreOrder(Kids(t)) {
        assert Kids(t) == t.children.list;
        UniqueSubforests(ts);
        CollapsedHidesSubtree(t.children.list, x);
        SubtreeInside(Kids(t), x, y);
        IdOfTask(PreOrder(Kids(t)), y);
        NotAmongIds(PreOrder(rest), y);
      } else {
        assert x in PreOrder(rest);
        CollapsedHidesSubtree(rest, x);
        SubtreeInside(rest, x, y);
        IdOfTask(PreOrder(rest), y);
        assert y.id != t.id;
        if t.children.Children? && IsSet(t.isExpanded) {
          VisibleMembers(t.children.list);
        }
        NotAmongIds(PreOrder(Kids(t)), y);
      }
    }
  }

  lemma IdOfTask(ts: seq<Task>, x: Task)
    requires x in ts
    ensures x.id in Ids(ts)
  {
    var i :| 0 <= i < |ts| && ts[i] == x;
    IdAt(ts, i);
  }

  /** A task whose id is not among the ids of a list is not in it. */
  lemma NotAmongIds(ts: seq<Task>, x: Task)
    ensures x.id !in Ids(ts) ==> x !in ts
  {
    if x in ts {
      IdOfTask(ts, x);
    }
  }

  /** A node below a node of a forest is itself a node of the forest. */
  lemma {:induction false} SubtreeInside(ts: seq<Task>, x: Task, y: Task)
    requires x in PreOrder(ts) && y in PreOrder(Kids(x))
    ensures y in PreOrder(ts)
  {
    var k :| 0 <= k < |PreOrder(ts)| && PreOrder(ts)[k] == x;
    SubtreeFollows(ts, k);
    var sub := PreOrder(Kids(x));
    var j :| 0 <= j < |sub| && sub[j] == y;
    assert PreOrder(ts)[k + 1..k + 1 + |sub|][j] == y;
  }

  // ---------------------------------------------------------------------
  // Grid rows and day columns
  // ---------------------------------------------------------------------

  /** One row of the grid: keyed by the task id, one row high, holding the task's bar. */
  datatype GridRow = GridRow(key: string, height: int, bar: TaskBar.Bar)

  /** The rows of the grid for the visible listing. */
  function GridRows(flat: seq<Task>, chartStart: int, dayWidth: int, rowHeight: int): (rows: seq<GridRow>)
    ensures |rows| == |flat|
    ensures forall i :: 0 <= i < |flat| ==>
      rows[i] == GridRow(flat[i].id, rowHeight, TaskBar.BarOf(flat[i], chartStart, dayWidth))
  {
    seq(|flat|, i requires 0 <= i < |flat| => GridRow(flat[i].id, rowHeight, TaskBar.BarOf(flat[i], chartStart, dayWidth)))
  }

  /** The grid: one vertical line per day of the interval and one row per visible task. */
  datatype Grid = Grid(dayColumns: seq<int>, rows: seq<GridRow>)

  /** The grid of a tree over the days `startDate .. endDate`. */
  method RenderGrid(tasks: seq<Task>, startDate: int, endDate: int, dayWidth: int, rowHeight: int)
    returns (grid: Grid)
    requires startDate <= endDate
    ensures |grid.dayColumns| == endDate - startDate + 1
    ensures grid.rows == GridRows(Visible(tasks), startDate, dayWidth, rowHeight)
    ensures |grid.rows| <= Size(tasks)
  {
    var days := Calendar.EachDay(startDate, endDate);
    var flatTasks := FlattenVisible(tasks);
    VisibleCount(tasks);
    grid := Grid(days, GridRows(flatTasks, startDate, dayWidth, rowHeight));
  }
}
