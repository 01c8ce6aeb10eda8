/** The timeline's fixed rolling window: from the first day of the previous
    month up to (not including) the first day of the month after next, computed
    from today's date with year rollover. Today is a parameter of the model
    rather than the clock. */
module Config {
  import opened Common
  import opened Calendar

  /** The half-open date range [start, end) the timeline shows. */
  datatype Window = Window(start: Date, end: Date)

  /** TODAY.replace(day=1) - relativedelta(months=1): January rolls back to
      December of the previous year; before year 1 the date cannot be built. */
  function PreviousMonthStart(today: CivilDate): Option<Date> {
    if today.month == 1 then
      (if today.year > 1 then Some(Date(today.year - 1, 12, 1)) else None)
    else Some(Date(today.year, today.month - 1, 1))
  }

  /** TODAY.replace(day=1) + relativedelta(months=2): November and December
      roll forward into the next year; after year 9999 the date cannot be built. */
  function MonthAfterNextStart(today: CivilDate): Option<Date> {
    if today.month <= 10 then Some(Date(today.year, today.month + 2, 1))
    else if today.year < 9999 then Some(Date(today.year + 1, today.month - 10, 1))
    else None
  }

  /** TIMELINE_START and TIMELINE_END, or None where Python raises because a
      year leaves 1..9999. */
  function TimelineWindow(today: CivilDate): (w: Option<Window>)
    ensures w.None? <==> (today.year == 1 && today.month == 1) || (today.year == 9999 && today.month >= 11)
    ensures w.Some? ==>
              && ValidDate(w.value.start) && ValidDate(w.value.end)
              && w.value.start.day == 1 && w.value.end.day == 1
              && DateLe(w.value.start, today) && DateLt(today, w.value.end)
              && MonthIndex(w.value.start) == MonthIndex(today) - 1
              && MonthIndex(w.value.end) == MonthIndex(w.value.start) + 3
  {
    var start :- PreviousMonthStart(today);
    var end :- MonthAfterNextStart(today);
    Some(Window(start, end))
  }

  /** The window holds exactly the days of last month, this month and next month. */
  lemma {:induction false} WindowIsThreeMonths(today: CivilDate, d: CivilDate)
    requires TimelineWindow(today).Some?
    ensures var w := TimelineWindow(today).value;
            DateLe(w.start, d) && DateLt(d, w.end)
            <==> MonthIndex(today) - 1 <= MonthIndex(d) <= MonthIndex(today) + 1
  {
    var w := TimelineWindow(today).value;
    OnOrAfterMonthStart(d, w.start);
    OnOrAfterMonthStart(d, w.end);
  }
}
