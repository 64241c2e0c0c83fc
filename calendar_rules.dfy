/** The calendar component's pure rules: the checks it applies to its
    props, which days, months and years are disabled, and how a day tile is
    classified (selected, part of a range, range preview, event, holiday). */
module CalendarRules {
  import opened Wrappers
  import opened Dates
  import opened Events
  import opened Navigation
  import DateUtils

  datatype SelectionMode = SingleSelection | RangeSelection

  /** The props the component checks before it does anything else, as the
      caller gave them. */
  datatype Props = Props(date: DateValue, calendarType: string, weekStartDay: int,
                         dateFormat: string, selectionMode: string, view: string)

  /** The same props after the checks. */
  datatype Settings = Settings(date: DateValue, weekStartDay: int, dateFormat: string,
                               selectionMode: SelectionMode, view: View)

  /** The date patterns the component accepts. */
  const DateFormats: seq<string> := ["mm/dd/yyyy", "dd/mm/yyyy", "yyyy-mm-dd", "mm-dd-yyyy", "dd-mm-yyyy"]

  /** The prop checks: an invalid date becomes `now`, a calendar type other
      than "gregorian" is an error, and a week start, date pattern,
      selection mode or view outside the accepted ones falls back to its
      default. Values that pass their check are kept. */
  method ValidateProps(props: Props, now: DateValue) returns (r: Result<Settings>)
    requires now.At?
    ensures r.Err? <==> props.calendarType != "gregorian"
    ensures r.Err? ==>
      r.message == "Unsupported calendar type: " + props.calendarType + ". Only 'gregorian' is supported."
    ensures r.Ok? ==> r.value.date == (if props.date.At? then props.date else now)
    ensures r.Ok? ==> 0 <= r.value.weekStartDay <= 6
    ensures r.Ok? ==> r.value.weekStartDay == (if 0 <= props.weekStartDay <= 6 then props.weekStartDay else 0)
    ensures r.Ok? ==> r.value.dateFormat in DateFormats
    ensures r.Ok? ==> r.value.dateFormat == (if props.dateFormat in DateFormats then props.dateFormat else "mm/dd/yyyy")
    ensures r.Ok? ==> (r.value.selectionMode == RangeSelection <==> props.selectionMode == "range")
    ensures r.Ok? ==> r.value.view == (if ParseView(props.view).Some? then ParseView(props.view).value else MonthView)
  {
    var date := props.date;
    if !DateUtils.IsValidDate(date) {
      date := now;
    }
    if props.calendarType != "gregorian" {
      return Err("Unsupported calendar type: " + props.calendarType + ". Only 'gregorian' is supported.");
    }
    var weekStartDay := props.weekStartDay;
    if weekStartDay < 0 || weekStartDay > 6 {
      weekStartDay := 0;
    }
    var dateFormat := props.dateFormat;
    if dateFormat !in DateFormats {
      dateFormat := "mm/dd/yyyy";
    }
    var selectionMode := props.selectionMode;
    if selectionMode != "single" && selectionMode != "range" {
      selectionMode := "single";
    }
    var view := props.view;
    if ParseView(view).None? {
      view := "month";
    }
    var mode := if selectionMode == "range" then RangeSelection else SingleSelection;
    r := Ok(Settings(date, weekStartDay, dateFormat, mode, ParseView(view).value));
  }

  /** A month of a year, as the custom disabled months are given. */
  datatype YearMonth = YearMonth(year: int, month: int)

  /** The props that decide which tiles are disabled. An absent bound or
      predicate is `None`. */
  datatype DisableRules = DisableRules(
    minDate: Option<DateValue>,
    maxDate: Option<DateValue>,
    disableDate: Option<DateValue -> bool>,
    disableBeforeToday: bool,
    customDisabledDates: seq<DateValue>,
    disableYear: Option<int -> bool>,
    customDisabledYears: seq<int>,
    customDisabledMonths: seq<YearMonth>)

  /** `date` falls on the calendar day of some valid date of `days`. */
  predicate OnListedDay(date: DateValue, days: seq<DateValue>) {
    exists i :: 0 <= i < |days| && days[i].At? && SameDateString(days[i], date)
  }

  /** The date lies before a valid `minDate` or after a valid `maxDate`. */
  predicate OutOfBounds(rules: DisableRules, date: DateValue) {
    (rules.minDate.Some? && rules.minDate.value.At? && Before(date, rules.minDate.value))
    || (rules.maxDate.Some? && rules.maxDate.value.At? && Before(rules.maxDate.value, date))
  }

  /** `isDateDisabled`, where `today` is the current day at midnight: an
      invalid date is disabled; then the bounds are checked; then a
      `disableDate` predicate, when given, decides alone; without one the
      date is disabled when it is before today (if asked for) or on a
      custom disabled day. */
  predicate IsDateDisabled(rules: DisableRules, today: DateValue, date: DateValue)
    ensures !date.At? ==> IsDateDisabled(rules, today, date)
    ensures OutOfBounds(rules, date) ==> IsDateDisabled(rules, today, date)
    ensures rules.minDate.None? && rules.maxDate.None? && rules.disableDate.None?
            && !rules.disableBeforeToday && rules.customDisabledDates == [] ==>
      (IsDateDisabled(rules, today, date) <==> !date.At?)
    ensures date.At? && rules.disableDate.None? && !OutOfBounds(rules, date) ==>
      (IsDateDisabled(rules, today, date) <==>
         (rules.disableBeforeToday && Before(date, today)) || OnListedDay(date, rules.customDisabledDates))
  {
    if !date.At? then true
    else if rules.minDate.Some? && rules.minDate.value.At? && Before(date, rules.minDate.value) then true
    else if rules.maxDate.Some? && rules.maxDate.value.At? && Before(rules.maxDate.value, date) then true
    else if rules.disableDate.Some? then rules.disableDate.value(date)
    else (rules.disableBeforeToday && Before(date, today)) || OnListedDay(date, rules.customDisabledDates)
  }

  /** The bounds are checked before the predicate: a date outside them is
      disabled whatever `disableDate` answers, and inside them a given
      predicate decides alone, overriding the before-today and custom
      rules. */
  lemma BoundsBeforePredicate(rules: DisableRules, today: DateValue, date: DateValue, p: DateValue -> bool)
    requires date.At? && rules.disableDate == Some(p)
    ensures IsDateDisabled(rules, today, date) <==> OutOfBounds(rules, date) || p(date)
  {
  }

  /** With `disableBeforeToday` alone, inside the bounds, a midnight tile is
      disabled exactly when its day comes before today's. */
  lemma DaysBeforeTodayDisabled(rules: DisableRules, today: DateValue, date: DateValue)
    requires date.At? && date.time == 0 && today.At? && today.time == 0
    requires rules.disableDate.None? && rules.disableBeforeToday && rules.customDisabledDates == []
    requires !OutOfBounds(rules, date)
    ensures IsDateDisabled(rules, today, date) <==> EarlierDay(date.day, today.day)
  {
    BeforeByDay(date, today);
    DayNumberOrder(date.day, today.day);
  }

  /** Without a predicate, a day listed as custom disabled is disabled at
      any time of day, whatever `disableBeforeToday` says. */
  lemma CustomDayDisabled(rules: DisableRules, today: DateValue, date: DateValue, i: int)
    requires rules.disableDate.None? && 0 <= i < |rules.customDisabledDates|
    requires rules.customDisabledDates[i].At? && date.At? && date.day == rules.customDisabledDates[i].day
    ensures IsDateDisabled(rules, today, date)
  {
    assert SameDateString(rules.customDisabledDates[i], date);
  }

  /** With midnight bounds, a midnight day is disabled by them exactly when
      its day is before the first allowed day or after the last. */
  lemma MidnightBounds(rules: DisableRules, date: DateValue, lo: Day, hi: Day)
    requires date.At? && date.time == 0
    requires rules.minDate == Some(At(lo, 0)) && rules.maxDate == Some(At(hi, 0))
    ensures OutOfBounds(rules, date) <==> EarlierDay(date.day, lo) || EarlierDay(hi, date.day)
  {
    DayNumberOrder(date.day, lo);
    DayNumberOrder(hi, date.day);
  }

  /** A `minDate` with a time of day after midnight disables its own day. */
  lemma MinDateWithTimeDisablesItsDay(rules: DisableRules, today: DateValue, min: Day, t: TimeOfDay)
    requires rules.minDate == Some(At(min, t)) && t > 0
    ensures IsDateDisabled(rules, today, At(min, 0))
  {
  }

  /** `isYearDisabled` for the year `currentYear` of today: a
      `disableYear` predicate decides when given; otherwise every year
      before the current one is disabled, and so is every custom disabled
      year. */
  predicate IsYearDisabled(rules: DisableRules, currentYear: int, year: int)
    ensures rules.disableYear.Some? ==> (IsYearDisabled(rules, currentYear, year) <==> rules.disableYear.value(year))
    ensures rules.disableYear.None? && year in rules.customDisabledYears ==> IsYearDisabled(rules, currentYear, year)
  {
    if rules.disableYear.Some? then rules.disableYear.value(year)
    else year < currentYear || year in rules.customDisabledYears
  }

  /** Past years cannot be picked unless a `disableYear` predicate is given. */
  lemma PastYearsDisabled(rules: DisableRules, currentYear: int, year: int)
    requires rules.disableYear.None?
    ensures IsYearDisabled(rules, currentYear, year) <==> year < currentYear || year in rules.customDisabledYears
    ensures year < currentYear ==> IsYearDisabled(rules, currentYear, year)
  {
  }

  /** `isMonthDisabled` for the 1st of a month, where `today` is the
      current day: an invalid date is disabled; a `disableYear` predicate
      decides on the month's year when given; otherwise the month is
      disabled when it starts before the current month (if asked for) or
      is a custom disabled month. The start of today's month is built with
      `new Date(year, month, 1)`, so its year is `FullYear(today.year)`. */
  predicate IsMonthDisabled(rules: DisableRules, today: Day, monthDate: DateValue)
    ensures !monthDate.At? ==> IsMonthDisabled(rules, today, monthDate)
    ensures rules.disableYear.Some? && monthDate.At? ==>
      (IsMonthDisabled(rules, today, monthDate) <==> IsYearDisabled(rules, today.year, monthDate.day.year))
  {
    if !monthDate.At? then true
    else if rules.disableYear.Some? then rules.disableYear.value(monthDate.day.year)
    else
      (rules.disableBeforeToday && Before(monthDate, At(MonthStart(FullYear(today.year), today.month), 0)))
      || (exists i :: 0 <= i < |rules.customDisabledMonths|
            && rules.customDisabledMonths[i].year == monthDate.day.year
            && rules.customDisabledMonths[i].month == monthDate.day.month)
  }

  /** Without predicates or custom months and with `disableBeforeToday`,
      the months disabled are exactly those before today's month. */
  lemma MonthsBeforeTodayDisabled(rules: DisableRules, today: Day, y: int, m: int)
    requires 0 <= m < 12
    requires rules.disableYear.None? && rules.disableBeforeToday && rules.customDisabledMonths == []
    ensures IsMonthDisabled(rules, today, At(Date(y, m, 1), 0))
        <==> y < FullYear(today.year) || (y == FullYear(today.year) && m < today.month)
  {
    var first: Day := Date(FullYear(today.year), today.month, 1);
    assert MonthStart(FullYear(today.year), today.month) == first by {
      assert today.month / 12 == 0 && today.month % 12 == today.month;
    }
    DayNumberOrder(Date(y, m, 1), first);
  }

  /** The selected value: none, one date, or a list of dates (a pending
      range start `[d]` or a committed range `[start, end]`). */
  datatype Value = NoValue | OneDate(date: DateValue) | DateList(dates: seq<DateValue>)

  /** How a day tile relates to the selection. */
  datatype Mark = RangePreview(hoverEnd: bool) | SelectedStart | SelectedEnd | InRange | Selected | Unmarked

  /** The classification `getTileClassName` turns into class names: the
      selection mark, the type of the day's first event and whether the day
      is a holiday. An invalid date gets no classes at all. */
  datatype TileClass = NoTileClass | Tile(mark: Mark, eventType: Option<string>, holiday: bool)

  /** The first event with a valid date on the calendar day of `date`. */
  function FirstEventOn(events: seq<Event>, date: DateValue): (r: Option<Event>)
    ensures r.Some? ==> r.value in events && r.value.date.At? && SameDateString(r.value.date, date)
    ensures r.None? <==> forall i :: 0 <= i < |events| ==> !(events[i].date.At? && SameDateString(events[i].date, date))
  {
    if events == [] then None
    else if events[0].date.At? && SameDateString(events[0].date, date) then Some(events[0])
    else FirstEventOn(events[1..], date)
  }

  /** For a valid date, the event named in the tile's classes is the first
      of the day's events. */
  lemma {:induction false} FirstEventIsFirstOfDay(events: seq<Event>, date: DateValue)
    requires date.At?
    ensures FirstEventOn(events, date) == if EventsOn(events, date) == [] then None else Some(EventsOn(events, date)[0])
  {
    if events != [] {
      FirstEventIsFirstOfDay(events[1..], date);
      assert EventsOn(events, date)
          == (if SameDateString(events[0].date, date) then [events[0]] else []) + EventsOn(events[1..], date);
    }
  }

  /** The date lies between `a` and `b` inclusive, in either order. */
  predicate Between(date: DateValue, a: DateValue, b: DateValue) {
    (NotAfter(a, date) && NotAfter(date, b)) || (NotAfter(b, date) && NotAfter(date, a))
  }

  /** A click on a month tile of the year view or a year tile of the
      decade view: it picks the tile's date unless the tile is disabled. */
  function TileClick(disabled: bool, date: DateValue): (r: Option<DateValue>)
    ensures r.Some? <==> !disabled
    ensures r.Some? ==> r.value == date
  {
    if disabled then None else Some(date)
  }

  /** The selection mark of a valid date: a pending range with a hovered
      end previews the span between them; otherwise a committed pair marks
      its start, its end and the days strictly between, and a single value
      marks its own day. */
  function TileMark(date: DateValue, mode: SelectionMode, rangeStart: Option<DateValue>,
                    hovered: Option<DateValue>, selected: Value): (m: Mark)
    ensures m.RangePreview? ==> mode == RangeSelection && rangeStart.Some? && hovered.Some?
    ensures m == Selected ==> selected.OneDate?
    ensures m == SelectedEnd || m == InRange ==> selected.DateList? && |selected.dates| > 1
    ensures selected == NoValue && !(mode == RangeSelection && rangeStart.Some? && hovered.Some?) ==> m == Unmarked
  {
    if mode == RangeSelection && rangeStart.Some? && hovered.Some?
       && (Between(date, rangeStart.value, hovered.value) || SameDateString(date, rangeStart.value))
    then
      var start := rangeStart.value;
      var hover := hovered.value;
      var lo := if Before(start, hover) then start else hover;
      var hi := if Before(start, hover) then hover else start;
      if NotAfter(lo, date) && NotAfter(date, hi) then RangePreview(SameDateString(date, hover))
      else SelectedStart
    else
      match selected
      case DateList(dates) =>
        var start := if |dates| > 0 then Some(dates[0]) else None;
        var end := if |dates| > 1 then Some(dates[1]) else None;
        if start.Some? && start.value.At? && SameDateString(date, start.value) then SelectedStart
        else if end.Some? && end.value.At? && SameDateString(date, end.value) then SelectedEnd
        else if start.Some? && end.Some? && Before(start.value, date) && Before(date, end.value) then InRange
        else Unmarked
      case OneDate(v) =>
        if v.At? && SameDateString(date, v) then Selected else Unmarked
      case NoValue => Unmarked
  }

  /** `getTileClassName` without the caller's own `tileClassName` classes. */
  function GetTileClass(date: DateValue, mode: SelectionMode, rangeStart: Option<DateValue>,
                        hovered: Option<DateValue>, selected: Value,
                        events: seq<Event>, holidayDates: seq<DateValue>): (c: TileClass)
    ensures c.NoTileClass? <==> !date.At?
    ensures c.Tile? ==> c.mark == TileMark(date, mode, rangeStart, hovered, selected)
    ensures c.Tile? ==> (c.eventType.Some? <==> exists i :: 0 <= i < |events| && events[i].date.At? && SameDateString(events[i].date, date))
    ensures c.Tile? ==> c.eventType == if EventsOn(events, date) == [] then None
                                       else Some(KindClass(EventsOn(events, date)[0]))
    ensures c.Tile? ==> (c.holiday <==> OnListedDay(date, holidayDates))
  {
    if !date.At? then NoTileClass
    else
      FirstEventIsFirstOfDay(events, date);
      var event := FirstEventOn(events, date);
      var eventType := if event.Some? then Some(KindClass(event.value)) else None;
      Tile(TileMark(date, mode, rangeStart, hovered, selected), eventType, OnListedDay(date, holidayDates))
  }

  /** While a range start is pending and a day is hovered, exactly the
      dates between the two, in either order, are previewed. */
  lemma PreviewExactlyBetween(date: DateValue, start: DateValue, hover: DateValue, selected: Value)
    requires date.At? && start.At? && hover.At?
    ensures TileMark(date, RangeSelection, Some(start), Some(hover), selected).RangePreview?
        <==> Between(date, start, hover)
  {
  }

  /** The hovered end of the preview is flagged as such. */
  lemma PreviewFlagsHoveredDay(date: DateValue, start: DateValue, hover: DateValue, selected: Value)
    requires date.At? && start.At? && hover.At? && Between(date, start, hover)
    ensures TileMark(date, RangeSelection, Some(start), Some(hover), selected)
         == RangePreview(SameDateString(date, hover))
  {
  }

  /** Without a preview, a committed range marks its first day, its last
      day and every day in between; days outside it stay unmarked. */
  lemma CommittedRangeMarks(date: DateValue, mode: SelectionMode, rangeStart: Option<DateValue>,
                            hovered: Option<DateValue>, s: DateValue, e: DateValue)
    requires date.At? && s.At? && e.At?
    requires !(mode == RangeSelection && rangeStart.Some? && hovered.Some?)
    requires NotAfter(s, e)
    ensures var mark := TileMark(date, mode, rangeStart, hovered, DateList([s, e]));
      && (date.day == s.day ==> mark == SelectedStart)
      && (date.day != s.day && date.day == e.day ==> mark == SelectedEnd)
      && (EarlierDay(s.day, date.day) && EarlierDay(date.day, e.day) ==> mark == InRange)
      && ((EarlierDay(date.day, s.day) || EarlierDay(e.day, date.day)) ==> mark == Unmarked)
  {
    BeforeByDay(s, date);
    BeforeByDay(date, e);
    DayNumberOrder(s.day, date.day);
    DayNumberOrder(date.day, e.day);
    DayNumberOrder(date.day, s.day);
    DayNumberOrder(e.day, date.day);
  }

  /** Without a preview, a single selected date marks exactly its day. */
  lemma SingleValueMarks(date: DateValue, mode: SelectionMode, rangeStart: Option<DateValue>,
                         hovered: Option<DateValue>, v: DateValue)
    requires date.At? && v.At?
    requires !(mode == RangeSelection && rangeStart.Some? && hovered.Some?)
    ensures TileMark(date, mode, rangeStart, hovered, OneDate(v)) == Selected <==> date.day == v.day
  {
  }

  /** The `rangeLimit` check on the second click of a range: a limit of 0
      means none; otherwise the two instants may be at most `limit` whole
      days of milliseconds apart, in either order. */
  predicate WithinRangeLimit(limit: int, start: DateValue, date: DateValue)
    requires start.At? && date.At?
    ensures limit == 0 ==> WithinRangeLimit(limit, start, date)
    ensures limit < 0 ==> !WithinRangeLimit(limit, start, date)
  {
    limit == 0 || Abs(TimeValue(date) - TimeValue(start)) <= limit * MsPerDay
  }

  /** The limit does not depend on the order of the two clicks. */
  lemma RangeLimitSymmetric(limit: int, a: DateValue, b: DateValue)
    requires a.At? && b.At?
    ensures WithinRangeLimit(limit, a, b) <==> WithinRangeLimit(limit, b, a)
  {
  }

  function Abs(x: int): (a: nat)
    ensures a == x || a == -x
  {
    if x < 0 then -x else x
  }

  /** For two midnights the limit counts calendar days: the second click is
      accepted exactly when it is at most `limit` days from the first. */
  lemma RangeLimitInDays(limit: int, s: Day, d: Day)
    ensures WithinRangeLimit(limit, At(s, 0), At(d, 0))
        <==> limit == 0 || Abs(DayNumber(d) - DayNumber(s)) <= limit
  {
    var diff := DayNumber(d) - DayNumber(s);
    assert TimeValue(At(d, 0)) - TimeValue(At(s, 0)) == diff * MsPerDay;
    assert Abs(diff * MsPerDay) == Abs(diff) * MsPerDay;
    if Abs(diff) <= limit {
      assert Abs(diff) * MsPerDay <= limit * MsPerDay;
    } else {
      assert Abs(diff) * MsPerDay > limit * MsPerDay;
    }
  }

  /** `[start, date].sort((a, b) => a - b)`: the two dates in time order;
      the sort is stable, so equal instants keep the first click first. */
  function SortedPair(start: DateValue, date: DateValue): (r: seq<DateValue>)
    requires start.At? && date.At?
    ensures |r| == 2 && NotAfter(r[0], r[1])
    ensures multiset(r) == multiset{start, date}
    ensures r[0] == start <==> !Before(date, start)
  {
    if Before(date, start) then [date, start] else [start, date]
  }
}
