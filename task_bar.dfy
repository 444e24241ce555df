/**
 * The bar of one task on the day grid: its horizontal placement, its look
 * as a section or a plain task, and the progress fill.
 */
module TaskBar {
  import opened TaskModel

  /** Bar heights in pixels: a thin bar for a section, a full one for a task. */
  const SectionHeight := 10
  const TaskHeight := 28

  /**
   * What the bar renders: its left offset and width in pixels, its height,
   * whether it is drawn as a section, the width of the progress fill in
   * percent (absent when nothing is filled), whether the title is written
   * on it and whether the percentage shows on hover.
   */
  datatype Bar = Bar(
    left: int,
    width: int,
    height: int,
    isSection: bool,
    fill: Option<int>,
    showTitle: bool,
    showPercent: bool)

  /**
   * The bar of `task` on a grid starting on day `chartStart`, `dayWidth`
   * pixels per day. Day differences are whole days, so `differenceInDays`
   * is a subtraction.
   */
  function BarOf(task: Task, chartStart: int, dayWidth: int): (b: Bar)
    ensures b.left == (task.startDate - chartStart) * dayWidth
    ensures b.width == (task.endDate - task.startDate + 1) * dayWidth
    ensures b.left + b.width == (task.endDate - chartStart + 1) * dayWidth
    ensures b.isSection <==> |Kids(task)| > 0
    ensures b.height == (if b.isSection then SectionHeight else TaskHeight)
    ensures b.fill.Some? <==> task.progress > 0
    ensures b.fill.Some? ==> b.fill.value == task.progress
    ensures b.showTitle <==> !b.isSection
    ensures b.showPercent <==> b.showTitle && b.fill.Some?
  {
    var startOffset := task.startDate - chartStart;
    var duration := task.endDate - task.startDate + 1;
    var left := startOffset * dayWidth;
    var width := duration * dayWidth;
    var isSection := task.children.Children? && |task.children.list| > 0;
    assert left + width == (task.endDate - chartStart + 1) * dayWidth by {
      Distribute(startOffset, duration, dayWidth);
    }
    Bar(
      left := left,
      width := width,
      height := if isSection then SectionHeight else TaskHeight,
      isSection := isSection,
      fill := if task.progress > 0 then Some(task.progress) else None,
      showTitle := !isSection,
      showPercent := !isSection && task.progress > 0)
  }

  lemma Distribute(a: int, b: int, c: int)
    ensures a * c + b * c == (a + b) * c
  {
  }

  lemma MulMonotone(a: int, b: int, c: int)
    requires a <= b && 0 <= c
    ensures a * c <= b * c
  {
    Distribute(a, b - a, c);
  }

  /**
   * The bar lies on the grid: a task that starts on or after the first day
   * has a non-negative offset, one that also ends on or before the last day
   * ends within the grid's width, and a task that does not end before it
   * starts is at least one day wide.
   */
  lemma BarOnGrid(task: Task, chartStart: int, chartEnd: int, dayWidth: int)
    requires 0 <= dayWidth
    ensures chartStart <= task.startDate ==> 0 <= BarOf(task, chartStart, dayWidth).left
    ensures task.endDate <= chartEnd ==>
      BarOf(task, chartStart, dayWidth).left + BarOf(task, chartStart, dayWidth).width <= (chartEnd - chartStart + 1) * dayWidth
    ensures task.startDate <= task.endDate ==> dayWidth <= BarOf(task, chartStart, dayWidth).width
  {
    var b := BarOf(task, chartStart, dayWidth);
    if chartStart <= task.startDate {
      MulMonotone(0, task.startDate - chartStart, dayWidth);
    }
    if task.endDate <= chartEnd {
      MulMonotone(task.endDate - chartStart + 1, chartEnd - chartStart + 1, dayWidth);
    }
    if task.startDate <= task.endDate {
      MulMonotone(1, task.endDate - task.startDate + 1, dayWidth);
    }
  }
}
