/** The month view: the weekday header, the grid cut into week rows, and
    the rules of one day tile (disabled, its events, what a click and a
    hover do, and the event dots it shows). */
module MonthPanel {
  import opened Wrappers
  import opened Dates
  import opened Events
  import opened DateUtils

  /** The day under column `i` of the weekday header: `i` days after the
      week start on or before the 1st of the month of `date`. */
  function HeaderDay(date: Day, weekStartDay: int, i: int): Day
    requires 0 <= weekStartDay <= 6
  {
    var first: Day := Date(date.year, date.month, 1);
    AddDays(first, i - LeadingCount(date.year, date.month, weekStartDay))
  }

  /** Column `i` of the header names weekday `(weekStartDay + i) % 7`. */
  lemma HeaderWeekday(date: Day, weekStartDay: int, i: int)
    requires 0 <= weekStartDay <= 6
    ensures Weekday(HeaderDay(date, weekStartDay, i)) == (weekStartDay + i) % 7
  {
    var first: Day := Date(date.year, date.month, 1);
    var lead := LeadingCount(date.year, date.month, weekStartDay);
    var w := Weekday(first);
    assert lead == (w - weekStartDay + 7) % 7;
    assert HeaderDay(date, weekStartDay, i) == AddDays(first, i - lead);
    WeekdayOfAddDays(first, i - lead);
    WeekStartShift(w, weekStartDay, i);
  }

  /** Stepping back from weekday `w` to the week start and on by `i` days
      lands on weekday `(weekStartDay + i) % 7`. */
  lemma WeekStartShift(w: int, weekStartDay: int, i: int)
    requires 0 <= w < 7 && 0 <= weekStartDay <= 6
    ensures (w + (i - (w - weekStartDay + 7) % 7)) % 7 == (weekStartDay + i) % 7
  {
    if w < weekStartDay {
      assert (w - weekStartDay + 7) % 7 == w - weekStartDay + 7;
      DivShift7(-1, weekStartDay + i);
    } else {
      assert (w - weekStartDay + 7) % 7 == w - weekStartDay;
    }
  }

  /** The loop building the weekday header: it steps back from the 1st to
      the week start and lists the seven days from there. Only the days are
      modelled; their names depend on the locale. */
  method WeekdayHeader(date: Day, weekStartDay: int) returns (weekdays: seq<Day>)
    requires 0 <= weekStartDay <= 6
    ensures |weekdays| == 7
    ensures forall i :: 0 <= i < 7 ==> weekdays[i] == HeaderDay(date, weekStartDay, i)
    ensures forall i :: 0 <= i < 7 ==> Weekday(weekdays[i]) == (weekStartDay + i) % 7
  {
    var first := SetDayOfMonth(date, 1);
    var offset := (Weekday(first) - weekStartDay + 7) % 7;
    var startDate := SetDayOfMonth(first, 1 - offset);
    HeaderStart(date, weekStartDay, first, offset, startDate);
    weekdays := [];
    var i := 0;
    while i < 7
      invariant 0 <= i <= 7 && |weekdays| == i
      invariant forall j :: 0 <= j < i ==> weekdays[j] == HeaderDay(date, weekStartDay, j)
      invariant forall j :: 0 <= j < i ==> Weekday(weekdays[j]) == (weekStartDay + j) % 7
    {
      var day := SetDate(startDate, i);
      HeaderStep(date, weekStartDay, startDate, i);
      HeaderWeekday(date, weekStartDay, i);
      weekdays := weekdays + [day];
      i := i + 1;
    }
  }

  /** `setDate(1)` and then `setDate(1 - offset)` land on the week start
      the header begins with. */
  lemma HeaderStart(date: Day, weekStartDay: int, first: Day, offset: int, startDate: Day)
    requires 0 <= weekStartDay <= 6
    requires first == AddDays(Date(date.year, date.month, 1), 1 - 1)
    requires offset == (Weekday(first) - weekStartDay + 7) % 7
    requires startDate == AddDays(Date(first.year, first.month, 1), 1 - offset - 1)
    ensures startDate == HeaderDay(date, weekStartDay, 0)
  {
    var f: Day := Date(date.year, date.month, 1);
    DayNumberOfAddDays(f, 0);
    DayNumberInjective(first, f);
    assert Date(first.year, first.month, 1) == f;
    assert offset == LeadingCount(date.year, date.month, weekStartDay);
    assert startDate == AddDays(f, 0 - offset);
  }

  /** The header's day `i` is `i` days after its first. */
  lemma HeaderStep(date: Day, weekStartDay: int, startDate: Day, i: int)
    requires 0 <= weekStartDay <= 6
    requires startDate == HeaderDay(date, weekStartDay, 0)
    ensures AddDays(startDate, i) == HeaderDay(date, weekStartDay, i)
  {
    var f: Day := Date(date.year, date.month, 1);
    var lead := LeadingCount(date.year, date.month, weekStartDay);
    assert startDate == AddDays(f, -lead);
    AddDaysAdd(f, -lead, i);
  }

  /** The grid `getDaysInMonth` gives the month view with neighbouring
      months shown: that of the month in year `FullYear(date.year)`. */
  function ShownGrid(date: Day, weekStartDay: int, fixed: bool): seq<DayCell>
    requires 0 <= weekStartDay <= 6
  {
    var y := FullYear(date.year);
    MonthGrid(y, date.month, LeadingCount(y, date.month, weekStartDay), fixed, true)
  }

  /** With neighbouring months shown, every cell of the grid lies under a
      header column of its own weekday, and the header lists exactly the
      days of the grid's first row. The header steps from a copy of `date`
      and keeps a year 0..99 as it is, while the grid is built in
      1900 + year, so the days agree only outside those years; the
      weekdays, which are what the header prints, agree always. */
  lemma HeaderMatchesGrid(date: Day, weekStartDay: int, fixed: bool, k: int)
    requires 0 <= weekStartDay <= 6
    requires 0 <= k < |ShownGrid(date, weekStartDay, fixed)|
    ensures ShownGrid(date, weekStartDay, fixed)[k].date.At?
    ensures Weekday(ShownGrid(date, weekStartDay, fixed)[k].date.day) == Weekday(HeaderDay(date, weekStartDay, k % 7))
    ensures k < 7 && !(0 <= date.year <= 99) ==>
      ShownGrid(date, weekStartDay, fixed)[k].date.day == HeaderDay(date, weekStartDay, k)
  {
    ShownCellWeekday(date, weekStartDay, fixed, k);
    HeaderWeekday(date, weekStartDay, k % 7);
    ColumnOf(weekStartDay, k);
    if k < 7 && !(0 <= date.year <= 99) {
      ShownFirstRow(date, weekStartDay, fixed, k);
    }
  }

  /** Cell `k` of the grid is a date of weekday `(weekStartDay + k) % 7`. */
  lemma ShownCellWeekday(date: Day, weekStartDay: int, fixed: bool, k: int)
    requires 0 <= weekStartDay <= 6
    requires 0 <= k < |ShownGrid(date, weekStartDay, fixed)|
    ensures ShownGrid(date, weekStartDay, fixed)[k].date.At?
    ensures Weekday(ShownGrid(date, weekStartDay, fixed)[k].date.day) == (weekStartDay + k) % 7
  {
    var y, m := FullYear(date.year), date.month;
    var lead := LeadingCount(y, m, weekStartDay);
    GridCellsAt(y, m, lead, |MonthGrid(y, m, lead, fixed, true)|, k);
    GridWeekday(y, m, weekStartDay, k);
  }

  lemma ShownFirstRow(date: Day, weekStartDay: int, fixed: bool, k: int)
    requires 0 <= weekStartDay <= 6 && 0 <= k < 7 && !(0 <= date.year <= 99)
    requires k < |ShownGrid(date, weekStartDay, fixed)|
    ensures ShownGrid(date, weekStartDay, fixed)[k].date.day == HeaderDay(date, weekStartDay, k)
  {
    var lead := LeadingCount(date.year, date.month, weekStartDay);
    GridCellsAt(date.year, date.month, lead, |ShownGrid(date, weekStartDay, fixed)|, k);
    FirstRowCell(date, weekStartDay, k);
  }

  /** Grid cell `k` of the first row is the header's day `k`. */
  lemma FirstRowCell(date: Day, weekStartDay: int, k: int)
    requires 0 <= weekStartDay <= 6 && 0 <= k < 7
    ensures GridCell(date.year, date.month, LeadingCount(date.year, date.month, weekStartDay), k).date.day
         == HeaderDay(date, weekStartDay, k)
  {
    var y, m := date.year, date.month;
    var lead := LeadingCount(y, m, weekStartDay);
    var first: Day := Date(y, m, 1);
    var d := GridCell(y, m, lead, k).date.day;
    GridCellDayNumber(y, m, lead, k);
    DayNumberOfAddDays(first, k - lead);
    DayNumberInjective(d, HeaderDay(date, weekStartDay, k));
  }

  lemma ColumnOf(w: int, k: int)
    requires k >= 0
    ensures (w + k) % 7 == (w + k % 7) % 7
  {
    DivShift7(k / 7, w + k % 7);
  }

  /** The concatenation of the rows. */
  function Flatten<T>(rows: seq<seq<T>>): seq<T> {
    if rows == [] then [] else Flatten(rows[..|rows| - 1]) + rows[|rows| - 1]
  }

  function Min(a: int, b: int): int {
    if a < b then a else b
  }

  /** The loop of `renderCalendar` that cuts the cells into rows of seven:
      read in order, the rows give back the cells; every row but the last
      is full, and row `w` holds cells `7w` to `7w + 6`. */
  method ChunkWeeks<T>(cells: seq<T>) returns (weeks: seq<seq<T>>)
    ensures Flatten(weeks) == cells
    ensures |weeks| == (|cells| + 6) / 7
    ensures forall w :: 0 <= w < |weeks| ==> 0 < |weeks[w]| <= 7
    ensures forall w :: 0 <= w < |weeks| - 1 ==> |weeks[w]| == 7
    ensures forall w, j :: 0 <= w < |weeks| && 0 <= j < |weeks[w]| ==>
      7 * w + j < |cells| && weeks[w][j] == cells[7 * w + j]
  {
    weeks := [];
    var i := 0;
    while i < |cells|
      invariant 0 <= i && i == 7 * |weeks|
      invariant i < |cells| + 7
      invariant i >= |cells| ==> |weeks| == (|cells| + 6) / 7
      invariant i < |cells| ==> |weeks| == i / 7
      invariant Flatten(weeks) == cells[..Min(i, |cells|)]
      invariant forall w :: 0 <= w < |weeks| ==> weeks[w] == cells[7 * w..Min(7 * w + 7, |cells|)]
    {
      var week := cells[i..Min(i + 7, |cells|)];
      assert cells[..Min(i + 7, |cells|)] == cells[..i] + week;
      assert (weeks + [week])[..|weeks|] == weeks;
      weeks := weeks + [week];
      i := i + 7;
    }
    assert cells[..|cells|] == cells;
  }

  /** `renderDay`'s disabled test, where `disabled` is the calendar's
      `tileDisabled` prop or else its own `isDateDisabled`: the date is
      disabled, or it belongs to a neighbouring month that is not shown. */
  predicate IsDisabled(disabled: DateValue -> bool, cell: DayCell, showNeighboringMonth: bool)
    ensures disabled(cell.date) ==> IsDisabled(disabled, cell, showNeighboringMonth)
    ensures showNeighboringMonth || cell.isCurrentMonth ==>
      (IsDisabled(disabled, cell, showNeighboringMonth) <==> disabled(cell.date))
  {
    disabled(cell.date) || (!showNeighboringMonth && !cell.isCurrentMonth)
  }

  /** Without neighbouring months the grid holds only the month's own days,
      so a tile is disabled exactly when the date rule disables it. */
  lemma HiddenNeighboursDisableNothingMore(disabled: DateValue -> bool, date: Day, weekStartDay: int,
                                           fixed: bool, k: int)
    requires 0 <= weekStartDay <= 6
    requires 0 <= k < |MonthGrid(date.year, date.month, LeadingCount(date.year, date.month, weekStartDay), fixed, false)|
    ensures var cell := MonthGrid(date.year, date.month, LeadingCount(date.year, date.month, weekStartDay), fixed, false)[k];
      IsDisabled(disabled, cell, false) <==> disabled(cell.date)
  {
    MonthGridCurrentCells(date.year, date.month, LeadingCount(date.year, date.month, weekStartDay), fixed, false, k);
  }

  /** The events listed on a tile: those whose date prints as the tile's
      date, in list order. The event date is not checked for validity. */
  function DayEvents(events: seq<Event>, cell: DayCell): (r: seq<Event>)
    ensures forall i :: 0 <= i < |r| ==> r[i] in events && SameDateString(r[i].date, cell.date)
    ensures forall i :: 0 <= i < |events| && SameDateString(events[i].date, cell.date) ==> events[i] in r
  {
    EventsOn(events, cell.date)
  }

  /** What a click on a tile triggers. */
  datatype DayAction = SelectDay(date: DateValue) | ClickEvent(event: Event, date: DateValue)

  /** `onClickEvent` for each event, in order. */
  function EventClicks(events: seq<Event>, date: DateValue): (r: seq<DayAction>)
    ensures |r| == |events|
    ensures forall i :: 0 <= i < |r| ==> r[i] == ClickEvent(events[i], date)
  {
    if events == [] then [] else [ClickEvent(events[0], date)] + EventClicks(events[1..], date)
  }

  /** A click on a tile: nothing when it is disabled; otherwise the date is
      selected and then, when `selectOnEventClick` is set, each of the
      day's events is reported clicked. */
  function ClickActions(disabled: DateValue -> bool, cell: DayCell, showNeighboringMonth: bool,
                        events: seq<Event>, selectOnEventClick: bool): (r: seq<DayAction>)
    ensures IsDisabled(disabled, cell, showNeighboringMonth) <==> r == []
    ensures r != [] ==> r[0] == SelectDay(cell.date)
    ensures r != [] && selectOnEventClick ==> r[1..] == EventClicks(DayEvents(events, cell), cell.date)
    ensures r != [] && !selectOnEventClick ==> |r| == 1
  {
    if IsDisabled(disabled, cell, showNeighboringMonth) then []
    else
      var dayEvents := DayEvents(events, cell);
      [SelectDay(cell.date)] + (if selectOnEventClick && |dayEvents| > 0 then EventClicks(dayEvents, cell.date) else [])
  }

  /** The mouse entering a tile hovers its date unless it is disabled. */
  function HoverTarget(disabled: DateValue -> bool, cell: DayCell, showNeighboringMonth: bool): (r: Option<DateValue>)
    ensures r.Some? <==> !IsDisabled(disabled, cell, showNeighboringMonth)
    ensures r.Some? ==> r.value == cell.date
  {
    if IsDisabled(disabled, cell, showNeighboringMonth) then None else Some(cell.date)
  }

  /** One event dot: the type it is styled by, its colour and its title. */
  datatype Dot = Dot(kind: string, color: string, title: string)

  function DotsOf(events: seq<Event>): (r: seq<Dot>)
    ensures |r| == |events|
    ensures forall i :: 0 <= i < |r| ==> r[i] == Dot(KindClass(events[i]), events[i].color, events[i].title)
  {
    if events == [] then [] else [Dot(KindClass(events[0]), events[0].color, events[0].title)] + DotsOf(events[1..])
  }

  /** The dots of a tile: one for each of its first three events, and the
      number of the others ("+n") when there are more than three. */
  function EventDots(dayEvents: seq<Event>): (r: (seq<Dot>, Option<nat>))
    ensures |r.0| == Min(|dayEvents|, 3)
    ensures forall i :: 0 <= i < |r.0| ==> r.0[i] == Dot(KindClass(dayEvents[i]), dayEvents[i].color, dayEvents[i].title)
    ensures r.1.Some? <==> |dayEvents| > 3
    ensures |r.0| + (if r.1.Some? then r.1.value else 0) == |dayEvents|
  {
    if |dayEvents| > 3 then (DotsOf(dayEvents[..3]), Some(|dayEvents| - 3))
    else (DotsOf(dayEvents), None)
  }

  /** The tile is marked as today when its date prints as `today`. */
  predicate IsToday(cell: DayCell, today: DateValue) {
    SameDateString(cell.date, today)
  }

  /** At most one tile of a month grid is marked as today. */
  lemma TodayAtMostOnce(year: int, month: int, offset: int, fixed: bool, neighbours: bool,
                        today: DateValue, i: int, j: int)
    requires 0 <= month < 12 && 0 <= offset < 7
    requires 0 <= i < |MonthGrid(year, month, offset, fixed, neighbours)|
    requires 0 <= j < |MonthGrid(year, month, offset, fixed, neighbours)|
    requires IsToday(MonthGrid(year, month, offset, fixed, neighbours)[i], today)
    requires IsToday(MonthGrid(year, month, offset, fixed, neighbours)[j], today)
    ensures i == j
  {
    var grid := MonthGrid(year, month, offset, fixed, neighbours);
    var lead := if neighbours then offset else 0;
    assert grid == GridCells(year, month, lead, |grid|);
    GridCellsAt(year, month, lead, |grid|, i);
    GridCellsAt(year, month, lead, |grid|, j);
    GridCellDayNumber(year, month, lead, i);
    GridCellDayNumber(year, month, lead, j);
  }
}
