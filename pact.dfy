/**
 * The 2026 commitment: a locked research schedule that, once unlocked, is drawn as a Gantt
 * chart over a twelve-month axis. Bar positions are percentages of the axis width, computed
 * here with exact reals rather than floating point.
 */
module Pact {
  /** One task of the schedule; months are counted from 1 (January). */
  datatype GanttItem = GanttItem(task: string, startMonth: int, durationMonths: int)

  /** A drawn bar: its label and its left edge and width in percent of the axis. */
  datatype Bar = Bar(task: string, left: real, width: real)

  /** The authored schedule, in the order its rows are drawn. */
  const Schedule: seq<GanttItem> := [
    GanttItem("Lit Review", 1, 2),
    GanttItem("Data Collection", 3, 3),
    GanttItem("Paper 1 Submission", 7, 1),
    GanttItem("Thesis Proposal", 9, 2),
    GanttItem("Paper 2 Draft", 11, 2)
  ]

  /** The bar's `left` style: the months before its start as a share of the year, so each
   *  month before the start moves the bar by a twelfth of the axis. */
  function BarLeft(item: GanttItem): (left: real)
    ensures left == (item.startMonth - 1) as real * (25.0 / 3.0)
  {
    ((item.startMonth - 1) as real / 12.0) * 100.0
  }

  /** The bar's `width`: its duration as a share of the year, a twelfth of the axis per month. */
  function BarWidth(item: GanttItem): (width: real)
    ensures width == item.durationMonths as real * (25.0 / 3.0)
  {
    (item.durationMonths as real / 12.0) * 100.0
  }

  /** Where the bar's right edge falls. */
  function BarEnd(item: GanttItem): real {
    BarLeft(item) + BarWidth(item)
  }

  /** The bar drawn for an item. */
  function BarOf(item: GanttItem): (bar: Bar)
    ensures bar.task == item.task
    ensures bar.left == BarLeft(item) && bar.width == BarWidth(item)
    ensures bar.left == (item.startMonth - 1) as real * (25.0 / 3.0)
    ensures bar.width == item.durationMonths as real * (25.0 / 3.0)
    ensures bar.left + bar.width == BarEnd(item)
  {
    Bar(item.task, BarLeft(item), BarWidth(item))
  }

  /** An item lies on the axis: it starts in the year and ends by December. */
  predicate OnAxis(item: GanttItem) {
    item.startMonth >= 1 && item.durationMonths >= 0 && item.startMonth - 1 + item.durationMonths <= 12
  }

  /** A task starting in January is drawn flush with the left of the axis, and only such a task. */
  lemma FirstMonthAtZero(item: GanttItem)
    ensures BarLeft(item) == 0.0 <==> item.startMonth == 1
  {
  }

  /** The width depends on the duration alone, not on where the bar starts. */
  lemma WidthIgnoresStart(a: GanttItem, b: GanttItem)
    requires a.durationMonths == b.durationMonths
    ensures BarWidth(a) == BarWidth(b)
  {
  }

  /** For a fixed duration a later start gives a bar strictly further right. */
  lemma LeftStrictlyIncreasing(a: GanttItem, b: GanttItem)
    requires a.startMonth < b.startMonth
    ensures BarLeft(a) < BarLeft(b)
  {
    var d := (b.startMonth - a.startMonth) as real;
    assert BarLeft(b) - BarLeft(a) == d / 12.0 * 100.0;
  }

  /** Each month is a twelfth of the axis: the right edge falls after the bar's last month. */
  lemma MonthSteps(item: GanttItem)
    ensures BarEnd(item) == (item.startMonth - 1 + item.durationMonths) as real * (25.0 / 3.0)
  {
  }

  /** A bar stays within the axis exactly when its item does; nothing is clamped. */
  lemma OnAxisIffWithinBounds(item: GanttItem)
    ensures OnAxis(item) <==>
      item.durationMonths >= 0 && 0.0 <= BarLeft(item) && BarEnd(item) <= 100.0
  {
    MonthSteps(item);
  }

  /** Nothing clamps: a task starting in December and lasting three months runs off the axis. */
  lemma NoClamping()
    ensures BarLeft(GanttItem("Late", 12, 3)) + BarWidth(GanttItem("Late", 12, 3)) == 350.0 / 3.0
    ensures BarEnd(GanttItem("Late", 12, 3)) > 100.0
  {
  }

  /** Bars of the first and the third task. */
  lemma ScheduleExamples()
    ensures BarOf(Schedule[0]) == Bar("Lit Review", 0.0, 50.0 / 3.0)
    ensures BarOf(Schedule[2]) == Bar("Paper 1 Submission", 50.0, 25.0 / 3.0)
  {
  }

  /** Every authored task fits the year, and the last one ends exactly at the right edge. */
  lemma ScheduleFits()
    ensures forall i :: 0 <= i < |Schedule| ==>
      OnAxis(Schedule[i]) && 0.0 <= BarLeft(Schedule[i]) && BarEnd(Schedule[i]) <= 100.0
    ensures Schedule[4].task == "Paper 2 Draft" && BarEnd(Schedule[4]) == 100.0
  {
    forall i | 0 <= i < |Schedule|
      ensures OnAxis(Schedule[i]) && 0.0 <= BarLeft(Schedule[i]) && BarEnd(Schedule[i]) <= 100.0
    {
      OnAxisIffWithinBounds(Schedule[i]);
    }
  }

  /** The section's state: whether the schedule has been unlocked. */
  class PactSection {
    var isUnlocked: bool

    /** The section mounts locked. */
    constructor ()
      ensures !isUnlocked
    {
      isUnlocked := false;
    }

    /** The unlock button: the schedule is unlocked, whatever the state before. */
    method HandleUnlock()
      modifies this
      ensures isUnlocked
    {
      isUnlocked := true;
    }

    /** The chart rows: none while locked, one bar per schedule item once unlocked. */
    function RenderedBars(): (bars: seq<Bar>)
      reads this
      ensures !isUnlocked ==> bars == []
      ensures isUnlocked ==> |bars| == |Schedule|
      ensures isUnlocked ==> forall i :: 0 <= i < |Schedule| ==> bars[i] == BarOf(Schedule[i])
    {
      if isUnlocked then seq(|Schedule|, i requires 0 <= i < |Schedule| => BarOf(Schedule[i])) else []
    }
  }
}
