/** The year view: one tile for each month of the anchor's year. */
module YearPanel {
  import opened Wrappers
  import opened Dates
  import opened CalendarRules

  /** A month tile: the 1st of the month at midnight, the month number,
      and whether it is disabled and selected. */
  datatype MonthTile = MonthTile(date: DateValue, month: int, disabled: bool, selected: bool)

  /** A month is selected when the value, or one of its dates, is a valid
      date in that month of that year. */
  predicate MonthSelected(value: Value, year: int, month: int) {
    match value
    case NoValue => false
    case OneDate(v) => v.At? && v.day.year == year && v.day.month == month
    case DateList(vs) => exists i :: 0 <= i < |vs| && vs[i].At? && vs[i].day.year == year && vs[i].day.month == month
  }

  /** The loop of the year view: the twelve months of the year of `date`
      in order, each disabled by `disabled` (the calendar's
      `isMonthDisabled`) on its 1st. The tiles are dated with
      `new Date(year, month, 1)`, which puts a year 0..99 in 1900 + year,
      while selection compares against the year as given. */
  method MonthTiles(date: Day, value: Value, disabled: DateValue -> bool) returns (tiles: seq<MonthTile>)
    ensures |tiles| == 12
    ensures forall m :: 0 <= m < 12 ==> tiles[m].month == m && tiles[m].date == At(Date(FullYear(date.year), m, 1), 0)
    ensures forall m :: 0 <= m < 12 ==> tiles[m].disabled == disabled(tiles[m].date)
    ensures forall m :: 0 <= m < 12 ==> tiles[m].selected == MonthSelected(value, date.year, m)
  {
    var year := date.year;
    tiles := [];
    var month := 0;
    while month < 12
      invariant 0 <= month <= 12 && |tiles| == month
      invariant forall m :: 0 <= m < month ==> tiles[m].month == m && tiles[m].date == At(Date(FullYear(year), m, 1), 0)
      invariant forall m :: 0 <= m < month ==> tiles[m].disabled == disabled(tiles[m].date)
      invariant forall m :: 0 <= m < month ==> tiles[m].selected == MonthSelected(value, year, m)
    {
      var first := FirstOfMonth(year, month);
      var monthDate := At(first, 0);
      tiles := tiles + [MonthTile(monthDate, month, disabled(monthDate), MonthSelected(value, year, month))];
      month := month + 1;
    }
  }

  /** A single valid date selects exactly its own month of its own year. */
  lemma OneDateSelectsItsMonth(v: Day, t: TimeOfDay, year: int, month: int)
    ensures MonthSelected(OneDate(At(v, t)), year, month) <==> year == v.year && month == v.month
  {
  }

  /** A committed range selects only the months of its two ends, not the
      months between them. */
  lemma RangeSelectsEndMonths(s: DateValue, e: DateValue, year: int, month: int)
    requires s.At? && e.At?
    ensures MonthSelected(DateList([s, e]), year, month)
        <==> (s.day.year == year && s.day.month == month) || (e.day.year == year && e.day.month == month)
  {
    var vs := [s, e];
    if s.day.year == year && s.day.month == month {
      assert vs[0].At? && vs[0].day.year == year && vs[0].day.month == month;
    } else if e.day.year == year && e.day.month == month {
      assert vs[1].At? && vs[1].day.year == year && vs[1].day.month == month;
    }
  }

  /** With the calendar's `isMonthDisabled`, no `disableYear` and no custom
      months, and `disableBeforeToday` set, the tiles of the current year
      are disabled exactly before the current month, and every tile of an
      earlier year is. */
  lemma CurrentYearTiles(rules: DisableRules, today: Day, year: int, m: int)
    requires 0 <= m < 12
    requires rules.disableYear.None? && rules.disableBeforeToday && rules.customDisabledMonths == []
    ensures year == FullYear(today.year) ==> (IsMonthDisabled(rules, today, At(Date(year, m, 1), 0)) <==> m < today.month)
    ensures year < FullYear(today.year) ==> IsMonthDisabled(rules, today, At(Date(year, m, 1), 0))
  {
    MonthsBeforeTodayDisabled(rules, today, year, m);
  }
}
