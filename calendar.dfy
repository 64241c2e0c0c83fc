/** The calendar component's state and its event handlers: the view and
    the history of views, the anchor date shown, the selected value, a
    pending range start and the hovered day. Each handler returns the
    callback props it calls, in order, as notices. */
module CalendarState {
  import opened Wrappers
  import opened Dates
  import opened Navigation
  import opened CalendarRules
  import DateUtils

  /** A call of one of the component's callback props. */
  datatype Notice =
    | ViewChanged(view: View)
    | ActiveStartDateChanged(activeStartDate: DateValue)
    | Changed(value: Value)
    | RangeHovered(start: Option<DateValue>, end: Option<DateValue>)
    | DrilledUp
    | DrilledDown
    | ClickedMonth(monthDate: DateValue)

  /** The caller's `tileDisabled` prop. The calendar calls it in two
      forms: with a bare date for each day tile of the month and day views,
      and with an object `{ date }` when a day is hovered. `onDate` and
      `onTileArgs` are its answers to each form; a predicate written for
      one form need not answer the other alike. */
  datatype TileDisabledProp = TileDisabledProp(onDate: DateValue -> bool, onTileArgs: DateValue -> bool)

  /** The props the handlers read, after the prop checks. A `rangeLimit`
      of 0 stands for none. */
  datatype Config = Config(
    selectionMode: SelectionMode,
    rangeLimit: int,
    disabledViews: seq<string>,
    minDetail: string,
    maxDetail: string,
    tileDisabled: Option<TileDisabledProp>,
    rules: DisableRules,
    weekStartDay: int,
    showFixedNumberOfWeeks: bool,
    showNeighboringMonth: bool,
    showDoubleView: bool)

  /** A view change is refused when the view is listed as disabled, or is
      the day view while the most detailed view is the month, the year view
      while the least detailed is the month, or the decade view while the
      least detailed is the year. */
  predicate ViewChangeAllowed(config: Config, v: View)
    ensures ViewName(v) in config.disabledViews ==> !ViewChangeAllowed(config, v)
    ensures v == MonthView ==> (ViewChangeAllowed(config, v) <==> ViewName(v) !in config.disabledViews)
  {
    !(ViewName(v) in config.disabledViews
      || (v == DayView && config.maxDetail == "month")
      || (v == YearView && config.minDetail == "month")
      || (v == DecadeView && config.minDetail == "year"))
  }

  /** With the default details ("month" as the most detailed view, "year"
      as the least) and no disabled views, only the month and year views
      can be entered. */
  lemma DefaultDetailsReach(config: Config, v: View)
    requires config.maxDetail == "month" && config.minDetail == "year" && config.disabledViews == []
    ensures ViewChangeAllowed(config, v) <==> v == MonthView || v == YearView
  {
  }

  /** The selection part of the state. */
  datatype Selection = Selection(value: Value, rangeStart: Option<DateValue>, hovered: Option<DateValue>)

  /** The new selection and the notices of one handler call. */
  datatype Outcome = Outcome(selection: Selection, notices: seq<Notice>)

  /** What the handlers keep true of the selection: pending and hovered
      dates are valid, only range mode has a pending start, a hovered day
      needs a pending start, and a pending start is the whole selected
      value. */
  predicate SelectionOk(config: Config, s: Selection) {
    && (s.rangeStart.Some? ==> s.rangeStart.value.At? && config.selectionMode == RangeSelection
                               && s.value == DateList([s.rangeStart.value]))
    && (s.hovered.Some? ==> s.hovered.value.At? && s.rangeStart.Some?)
  }

  /** `handleDateSelect`: invalid dates are ignored. In range mode the
      first click records a pending start; the second is ignored beyond
      the range limit and otherwise commits the two dates in time order. In
      single mode the date becomes the value. */
  function SelectDate(config: Config, s: Selection, date: DateValue): (r: Outcome)
    ensures !date.At? ==> r == Outcome(s, [])
    ensures r.notices == [] ==> r.selection == s
    ensures r.notices == [] || r.notices == [Changed(r.selection.value)]
  {
    if !date.At? then Outcome(s, [])
    else if config.selectionMode == RangeSelection then
      if s.rangeStart.None? then
        Outcome(Selection(DateList([date]), Some(date), None), [Changed(DateList([date]))])
      else if !s.rangeStart.value.At? then Outcome(s, [])
      else if !WithinRangeLimit(config.rangeLimit, s.rangeStart.value, date) then Outcome(s, [])
      else
        var range := SortedPair(s.rangeStart.value, date);
        Outcome(Selection(DateList(range), None, None), [Changed(DateList(range))])
    else
      Outcome(s.(value := OneDate(date), rangeStart := None), [Changed(OneDate(date))])
  }

  /** `handleHover`: with a pending range start, a valid hovered day is
      recorded, and reported unless the caller's `tileDisabled`, called
      with `{ date }`, answers true; otherwise nothing happens. */
  function HoverDate(config: Config, s: Selection, date: DateValue): (r: Outcome)
    ensures r.selection.value == s.value && r.selection.rangeStart == s.rangeStart
    ensures r.selection.hovered != s.hovered ==> date.At? && r.selection.hovered == Some(date)
    ensures r.notices == [] || r.notices == [RangeHovered(s.rangeStart, r.selection.hovered)]
  {
    if date.At? && config.selectionMode == RangeSelection && s.rangeStart.Some? then
      var reported := config.tileDisabled.None? || !config.tileDisabled.value.onTileArgs(date);
      Outcome(s.(hovered := Some(date)), if reported then [RangeHovered(s.rangeStart, Some(date))] else [])
    else Outcome(s, [])
  }

  /** The month view's `onClearHover`: the hovered day is forgotten and
      the hover callback told that the range has no end. */
  function ClearHover(s: Selection): (r: Outcome)
    ensures r.selection.value == s.value && r.selection.rangeStart == s.rangeStart && r.selection.hovered.None?
  {
    Outcome(s.(hovered := None), [RangeHovered(s.rangeStart, None)])
  }

  /** The disabled test the month and day views are given,
      `tileDisabled || isDateDisabled`: the prop called with a bare date,
      or else the calendar's own date rules. */
  function DayTileDisabled(config: Config, today: DateValue, date: DateValue): bool {
    if config.tileDisabled.Some? then config.tileDisabled.value.onDate(date)
    else IsDateDisabled(config.rules, today, date)
  }

  /** With a `tileDisabled` prop, the hover report follows the prop's
      answer to `{ date }`, while the day tile follows its answer to the
      bare date; a prop that disables a day as a date but answers false for
      the object (a comparison `arg < limit` on the object does) shows the
      tile disabled and still reports the hover. */
  lemma HoverReportFollowsObjectCall(config: Config, s: Selection, today: DateValue, date: DateValue)
    requires config.selectionMode == RangeSelection && s.rangeStart.Some? && date.At?
    requires config.tileDisabled.Some?
    ensures HoverDate(config, s, date).notices != [] <==> !config.tileDisabled.value.onTileArgs(date)
    ensures DayTileDisabled(config, today, date) <==> config.tileDisabled.value.onDate(date)
  {
  }

  /** Hovering a day and then leaving the grid leaves the same selection
      as leaving it straight away. */
  lemma ClearUndoesHover(config: Config, s: Selection, date: DateValue)
    ensures ClearHover(HoverDate(config, s, date).selection).selection == ClearHover(s).selection
  {
  }

  /** Every selection handler keeps the selection invariant. */
  lemma HandlersKeepSelectionOk(config: Config, s: Selection, date: DateValue)
    requires SelectionOk(config, s)
    ensures SelectionOk(config, SelectDate(config, s, date).selection)
    ensures SelectionOk(config, HoverDate(config, s, date).selection)
    ensures SelectionOk(config, ClearHover(s).selection)
  {
  }

  /** In range mode two valid clicks within the limit select both dates,
      earlier first, and leave nothing pending; the hovered day is cleared. */
  lemma TwoClicksSelectRange(config: Config, s: Selection, a: DateValue, b: DateValue)
    requires config.selectionMode == RangeSelection && s.rangeStart.None?
    requires a.At? && b.At? && WithinRangeLimit(config.rangeLimit, a, b)
    ensures var first := SelectDate(config, s, a);
      var second := SelectDate(config, first.selection, b);
      && first.selection.value == DateList([a])
      && second.selection == Selection(DateList(SortedPair(a, b)), None, None)
      && NotAfter(SortedPair(a, b)[0], SortedPair(a, b)[1])
      && multiset(SortedPair(a, b)) == multiset{a, b}
      && first.notices + second.notices == [Changed(DateList([a])), Changed(DateList(SortedPair(a, b)))]
  {
  }

  /** A second click beyond the range limit changes nothing and calls
      nothing. */
  lemma ClickBeyondLimitIgnored(config: Config, s: Selection, date: DateValue)
    requires config.selectionMode == RangeSelection && s.rangeStart.Some? && s.rangeStart.value.At?
    requires date.At? && !WithinRangeLimit(config.rangeLimit, s.rangeStart.value, date)
    ensures SelectDate(config, s, date) == Outcome(s, [])
  {
  }

  /** After hovering a day while a range start is pending, the tiles
      previewed are exactly the days between the start and the hovered day. */
  lemma HoverPreviewsSpan(config: Config, s: Selection, h: DateValue, d: DateValue)
    requires SelectionOk(config, s) && s.rangeStart.Some? && h.At? && d.At?
    ensures var t := HoverDate(config, s, h).selection;
      TileMark(d, config.selectionMode, t.rangeStart, t.hovered, t.value).RangePreview?
      <==> Between(d, s.rangeStart.value, h)
  {
    PreviewExactlyBetween(d, s.rangeStart.value, h, s.value);
  }

  /** After a committed range, the tiles of its first and last day are
      marked as such, and the days strictly between as in range. */
  lemma CommittedRangeTiles(config: Config, s: Selection, date: DateValue, d: DateValue)
    requires SelectionOk(config, s) && s.rangeStart.Some? && date.At? && d.At?
    requires WithinRangeLimit(config.rangeLimit, s.rangeStart.value, date)
    ensures var t := SelectDate(config, s, date).selection;
      var r := SortedPair(s.rangeStart.value, date);
      var mark := TileMark(d, config.selectionMode, t.rangeStart, t.hovered, t.value);
      && (d.day == r[0].day ==> mark == SelectedStart)
      && (d.day != r[0].day && d.day == r[1].day ==> mark == SelectedEnd)
      && (EarlierDay(r[0].day, d.day) && EarlierDay(d.day, r[1].day) ==> mark == InRange)
  {
    var t := SelectDate(config, s, date).selection;
    var r := SortedPair(s.rangeStart.value, date);
    assert t.value == DateList([r[0], r[1]]) && t.rangeStart.None?;
    CommittedRangeMarks(d, config.selectionMode, t.rangeStart, t.hovered, r[0], r[1]);
  }

  /** In single mode a click selects its day's tile and only that day's. */
  lemma SingleClickMarksDay(config: Config, s: Selection, date: DateValue, d: DateValue)
    requires SelectionOk(config, s) && config.selectionMode == SingleSelection && date.At? && d.At?
    ensures var t := SelectDate(config, s, date).selection;
      TileMark(d, config.selectionMode, t.rangeStart, t.hovered, t.value) == Selected <==> d.day == date.day
  {
    SingleValueMarks(d, config.selectionMode, None, None, date);
  }

  /** The day step of the arrow keys: a day left or right, a week up or down. */
  function KeyStep(key: string): (n: int)
    ensures n in {-7, -1, 0, 1, 7}
    ensures n != 0 <==> key == "ArrowLeft" || key == "ArrowRight" || key == "ArrowUp" || key == "ArrowDown"
  {
    if key == "ArrowLeft" then -1
    else if key == "ArrowRight" then 1
    else if key == "ArrowUp" then -7
    else if key == "ArrowDown" then 7
    else 0
  }

  /** The opposite arrow key undoes a move, and up and down keep the weekday. */
  lemma ArrowKeysUndo(d: Day, key: string)
    requires KeyStep(key) != 0
    ensures AddDays(AddDays(d, KeyStep(key)), -KeyStep(key)) == d
    ensures key == "ArrowUp" || key == "ArrowDown" ==> Weekday(AddDays(d, KeyStep(key))) == Weekday(d)
  {
    var k := KeyStep(key);
    AddDaysInverse(d, k);
    if key == "ArrowUp" || key == "ArrowDown" {
      WeekdayOfAddDays(d, k);
      WholeWeek(Weekday(d), k);
    }
  }

  lemma WholeWeek(w: int, k: int)
    requires 0 <= w < 7 && (k == 7 || k == -7)
    ensures (w + k) % 7 == w
  {
  }

  class Calendar {
    const config: Config
    var currentView: View
    var viewHistory: seq<View>
    var activeDate: DateValue
    var selectedValue: Value
    var internalRangeStart: Option<DateValue>
    var controlledHoveredDate: Option<DateValue>

    /** The anchor date is always valid (so the reset to the current
        month never fires), and the selection invariant holds. */
    predicate Valid()
      reads this
    {
      activeDate.At? && 0 <= config.weekStartDay <= 6 && SelectionOk(config, CurrentSelection())
    }

    /** The selection fields as one value. */
    function CurrentSelection(): Selection
      reads this
    {
      Selection(selectedValue, internalRangeStart, controlledHoveredDate)
    }

    /** The initial state: the checked view, no history, the value prop,
        nothing pending, and the anchor at the midnight of
        `activeStartDate` when one is given, else of `date`; an invalid
        anchor is replaced by the current time `now`. */
    constructor (settings: Settings, config: Config, value: Value, activeStartDate: Option<DateValue>, now: DateValue)
      requires now.At? && 0 <= config.weekStartDay <= 6
      ensures Valid()
      ensures this.config == config && currentView == settings.view && viewHistory == []
      ensures selectedValue == value && internalRangeStart.None? && controlledHoveredDate.None?
      ensures var anchor := if activeStartDate.Some? then activeStartDate.value else settings.date;
        activeDate == if anchor.At? then At(anchor.day, 0) else now
    {
      this.config := config;
      currentView := settings.view;
      var anchor := if activeStartDate.Some? then activeStartDate.value else settings.date;
      var sanitized := DateUtils.SanitizeDate(anchor, now);
      activeDate := sanitized;
      selectedValue := value;
      internalRangeStart := None;
      viewHistory := [];
      controlledHoveredDate := None;
    }

    /** `handleViewChange`: an allowed view becomes current and the old one
        is pushed on the history; a refused one changes nothing. */
    method ViewChange(newView: View) returns (notices: seq<Notice>)
      requires Valid()
      modifies this
      ensures Valid()
      ensures ViewChangeAllowed(config, newView) ==>
        currentView == newView && viewHistory == old(viewHistory) + [old(currentView)]
        && notices == [ViewChanged(newView)]
      ensures !ViewChangeAllowed(config, newView) ==>
        currentView == old(currentView) && viewHistory == old(viewHistory) && notices == []
      ensures activeDate == old(activeDate) && CurrentSelection() == old(CurrentSelection())
    {
      if !ViewChangeAllowed(config, newView) {
        return [];
      }
      viewHistory := viewHistory + [currentView];
      currentView := newView;
      notices := [ViewChanged(newView)];
    }

    /** `handleBackView`: the last view of the history becomes current
        again and is popped; with no history nothing happens. */
    method BackView() returns (notices: seq<Notice>)
      requires Valid()
      modifies this
      ensures Valid()
      ensures old(viewHistory) != [] ==>
        currentView == old(viewHistory)[|old(viewHistory)| - 1]
        && viewHistory == old(viewHistory)[..|old(viewHistory)| - 1]
        && notices == [ViewChanged(currentView)]
      ensures old(viewHistory) == [] ==>
        currentView == old(currentView) && viewHistory == [] && notices == []
      ensures activeDate == old(activeDate) && CurrentSelection() == old(CurrentSelection())
    {
      if viewHistory == [] {
        return [];
      }
      var lastView := viewHistory[|viewHistory| - 1];
      currentView := lastView;
      viewHistory := viewHistory[..|viewHistory| - 1];
      notices := [ViewChanged(lastView)];
    }

    /** `handleActiveDateChange`: a valid date becomes the anchor at its
        midnight and is reported as given; an invalid one is ignored. */
    method ActiveDateChange(newDate: DateValue) returns (notices: seq<Notice>)
      requires Valid()
      modifies this
      ensures Valid()
      ensures newDate.At? ==> activeDate == At(newDate.day, 0) && notices == [ActiveStartDateChanged(newDate)]
      ensures !newDate.At? ==> activeDate == old(activeDate) && notices == []
      ensures currentView == old(currentView) && viewHistory == old(viewHistory)
      ensures CurrentSelection() == old(CurrentSelection())
    {
      if !DateUtils.IsValidDate(newDate) {
        return [];
      }
      activeDate := DateUtils.SanitizeDate(newDate, newDate);
      notices := [ActiveStartDateChanged(newDate)];
    }

    /** `handleDateSelect`, as `SelectDate` states it. */
    method DateSelect(date: DateValue) returns (notices: seq<Notice>)
      requires Valid()
      modifies this
      ensures Valid()
      ensures CurrentSelection() == SelectDate(config, old(CurrentSelection()), date).selection
      ensures notices == SelectDate(config, old(CurrentSelection()), date).notices
      ensures currentView == old(currentView) && viewHistory == old(viewHistory) && activeDate == old(activeDate)
    {
      HandlersKeepSelectionOk(config, CurrentSelection(), date);
      notices := [];
      if !DateUtils.IsValidDate(date) {
        return;
      }
      if config.selectionMode == RangeSelection {
        if internalRangeStart.None? {
          internalRangeStart := Some(date);
          selectedValue := DateList([date]);
          controlledHoveredDate := None;
          notices := [Changed(DateList([date]))];
        } else {
          var start := internalRangeStart.value;
          if config.rangeLimit != 0 && Abs(TimeValue(date) - TimeValue(start)) > config.rangeLimit * MsPerDay {
            return;
          }
          var range := SortedPair(start, date);
          selectedValue := DateList(range);
          internalRangeStart := None;
          notices := [Changed(DateList(range))];
          controlledHoveredDate := None;
        }
      } else {
        selectedValue := OneDate(date);
        internalRangeStart := None;
        notices := [Changed(OneDate(date))];
      }
    }

    /** `handleHover`, as `HoverDate` states it. */
    method Hover(date: DateValue) returns (notices: seq<Notice>)
      requires Valid()
      modifies this
      ensures Valid()
      ensures CurrentSelection() == HoverDate(config, old(CurrentSelection()), date).selection
      ensures notices == HoverDate(config, old(CurrentSelection()), date).notices
      ensures currentView == old(currentView) && viewHistory == old(viewHistory) && activeDate == old(activeDate)
    {
      HandlersKeepSelectionOk(config, CurrentSelection(), date);
      notices := [];
      if !DateUtils.IsValidDate(date) {
        return;
      }
      if config.selectionMode == RangeSelection && internalRangeStart.Some? {
        controlledHoveredDate := Some(date);
        if config.tileDisabled.None? || !config.tileDisabled.value.onTileArgs(date) {
          notices := [RangeHovered(internalRangeStart, Some(date))];
        }
      }
    }

    /** The month view's `onClearHover`, as `ClearHover` states it. */
    method ClearHovered() returns (notices: seq<Notice>)
      requires Valid()
      modifies this
      ensures Valid()
      ensures CurrentSelection() == ClearHover(old(CurrentSelection())).selection
      ensures notices == ClearHover(old(CurrentSelection())).notices
      ensures currentView == old(currentView) && viewHistory == old(viewHistory) && activeDate == old(activeDate)
    {
      controlledHoveredDate := None;
      notices := [RangeHovered(internalRangeStart, None)];
    }

    /** `handleKeyDown` without moving the focus: only in the month view,
        the arrow keys move the anchor a day or a week, Enter selects the
        anchor unless `isDateDisabled` disables it (against `today`), and
        Backspace goes back a view. */
    method KeyDown(key: string, today: DateValue) returns (notices: seq<Notice>)
      requires Valid()
      modifies this
      ensures Valid()
      ensures old(currentView) != MonthView ==>
        notices == [] && activeDate == old(activeDate) && CurrentSelection() == old(CurrentSelection())
        && currentView == old(currentView) && viewHistory == old(viewHistory)
      ensures old(currentView) == MonthView && KeyStep(key) != 0 ==>
        var moved := AddDays(old(activeDate).day, KeyStep(key));
        && activeDate == At(moved, 0)
        && notices == [ActiveStartDateChanged(At(moved, old(activeDate).time))]
        && CurrentSelection() == old(CurrentSelection()) && currentView == old(currentView) && viewHistory == old(viewHistory)
      ensures old(currentView) == MonthView && key == "Enter" ==>
        var selecting := !IsDateDisabled(config.rules, today, old(activeDate));
        && CurrentSelection() == (if selecting then SelectDate(config, old(CurrentSelection()), old(activeDate)).selection
                           else old(CurrentSelection()))
        && notices == (if selecting then SelectDate(config, old(CurrentSelection()), old(activeDate)).notices else [])
        && activeDate == old(activeDate) && currentView == old(currentView) && viewHistory == old(viewHistory)
      ensures old(currentView) == MonthView && key == "Backspace" ==>
        activeDate == old(activeDate) && CurrentSelection() == old(CurrentSelection())
        && (old(viewHistory) != [] ==>
              currentView == old(viewHistory)[|old(viewHistory)| - 1]
              && viewHistory == old(viewHistory)[..|old(viewHistory)| - 1]
              && notices == [ViewChanged(currentView)])
        && (old(viewHistory) == [] ==> currentView == old(currentView) && viewHistory == [] && notices == [])
      ensures old(currentView) == MonthView && KeyStep(key) == 0 && key != "Enter" && key != "Backspace" ==>
        notices == [] && activeDate == old(activeDate) && CurrentSelection() == old(CurrentSelection())
        && currentView == old(currentView) && viewHistory == old(viewHistory)
    {
      notices := [];
      if currentView != MonthView {
        return;
      }
      var step := KeyStep(key);
      if step != 0 {
        var moved := SetDate(activeDate.day, step);
        notices := ActiveDateChange(At(moved, activeDate.time));
      } else if key == "Enter" {
        if !IsDateDisabled(config.rules, today, activeDate) {
          notices := DateSelect(activeDate);
        }
      } else if key == "Backspace" {
        notices := BackView();
      }
    }

    /** A header arrow button: the shifted anchor goes to
        `handleActiveDateChange`. */
    method Navigate(arrow: Arrow) returns (notices: seq<Notice>)
      requires Valid()
      modifies this
      ensures Valid()
      ensures activeDate == At(ArrowTarget(arrow, old(activeDate), old(currentView)).day, 0)
      ensures notices == [ActiveStartDateChanged(ArrowTarget(arrow, old(activeDate), old(currentView)))]
      ensures currentView == old(currentView) && viewHistory == old(viewHistory) && CurrentSelection() == old(CurrentSelection())
    {
      notices := ActiveDateChange(ArrowTarget(arrow, activeDate, currentView));
    }

    /** The day view's drill-up: to the month view, then `onDrillUp`. */
    method DayDrillUp() returns (notices: seq<Notice>)
      requires Valid()
      modifies this
      ensures Valid()
      ensures ViewChangeAllowed(config, MonthView) ==>
        currentView == MonthView && viewHistory == old(viewHistory) + [old(currentView)]
        && notices == [ViewChanged(MonthView), DrilledUp]
      ensures !ViewChangeAllowed(config, MonthView) ==>
        currentView == old(currentView) && viewHistory == old(viewHistory) && notices == [DrilledUp]
      ensures activeDate == old(activeDate) && CurrentSelection() == old(CurrentSelection())
    {
      notices := ViewChange(MonthView);
      notices := notices + [DrilledUp];
    }

    /** The month view's drill-down: to the day view, then `onDrillDown`. */
    method MonthDrillDown() returns (notices: seq<Notice>)
      requires Valid()
      modifies this
      ensures Valid()
      ensures ViewChangeAllowed(config, DayView) ==>
        currentView == DayView && viewHistory == old(viewHistory) + [old(currentView)]
        && notices == [ViewChanged(DayView), DrilledDown]
      ensures !ViewChangeAllowed(config, DayView) ==>
        currentView == old(currentView) && viewHistory == old(viewHistory) && notices == [DrilledDown]
      ensures activeDate == old(activeDate) && CurrentSelection() == old(CurrentSelection())
    {
      notices := ViewChange(DayView);
      notices := notices + [DrilledDown];
    }

    /** The month view's drill-up: to the year view, then `onDrillUp`. */
    method MonthDrillUp() returns (notices: seq<Notice>)
      requires Valid()
      modifies this
      ensures Valid()
      ensures ViewChangeAllowed(config, YearView) ==>
        currentView == YearView && viewHistory == old(viewHistory) + [old(currentView)]
        && notices == [ViewChanged(YearView), DrilledUp]
      ensures !ViewChangeAllowed(config, YearView) ==>
        currentView == old(currentView) && viewHistory == old(viewHistory) && notices == [DrilledUp]
      ensures activeDate == old(activeDate) && CurrentSelection() == old(CurrentSelection())
    {
      notices := ViewChange(YearView);
      notices := notices + [DrilledUp];
    }

    /** The year view's drill-up: to the decade view, then `onDrillUp`. */
    method YearDrillUp() returns (notices: seq<Notice>)
      requires Valid()
      modifies this
      ensures Valid()
      ensures ViewChangeAllowed(config, DecadeView) ==>
        currentView == DecadeView && viewHistory == old(viewHistory) + [old(currentView)]
        && notices == [ViewChanged(DecadeView), DrilledUp]
      ensures !ViewChangeAllowed(config, DecadeView) ==>
        currentView == old(currentView) && viewHistory == old(viewHistory) && notices == [DrilledUp]
      ensures activeDate == old(activeDate) && CurrentSelection() == old(CurrentSelection())
    {
      notices := ViewChange(DecadeView);
      notices := notices + [DrilledUp];
    }

    /** The decade view's drill-up, which asks for the year view (not a
        century view), then calls `onDrillUp`. */
    method DecadeDrillUp() returns (notices: seq<Notice>)
      requires Valid()
      modifies this
      ensures Valid()
      ensures ViewChangeAllowed(config, YearView) ==>
        currentView == YearView && viewHistory == old(viewHistory) + [old(currentView)]
        && notices == [ViewChanged(YearView), DrilledUp]
      ensures !ViewChangeAllowed(config, YearView) ==>
        currentView == old(currentView) && viewHistory == old(viewHistory) && notices == [DrilledUp]
      ensures activeDate == old(activeDate) && CurrentSelection() == old(CurrentSelection())
    {
      notices := ViewChange(YearView);
      notices := notices + [DrilledUp];
    }

    /** A month picked in the year view: the anchor moves to it, the month
        view is asked for, then `onClickMonth` and `onDrillDown` are called. */
    method MonthSelect(monthDate: DateValue) returns (notices: seq<Notice>)
      requires Valid()
      modifies this
      ensures Valid()
      ensures activeDate == (if monthDate.At? then At(monthDate.day, 0) else old(activeDate))
      ensures notices == (if monthDate.At? then [ActiveStartDateChanged(monthDate)] else [])
                       + (if ViewChangeAllowed(config, MonthView) then [ViewChanged(MonthView)] else [])
                       + [ClickedMonth(monthDate), DrilledDown]
      ensures ViewChangeAllowed(config, MonthView) ==>
        currentView == MonthView && viewHistory == old(viewHistory) + [old(currentView)]
      ensures !ViewChangeAllowed(config, MonthView) ==>
        currentView == old(currentView) && viewHistory == old(viewHistory)
      ensures CurrentSelection() == old(CurrentSelection())
    {
      var dateNotices := ActiveDateChange(monthDate);
      var viewNotices := ViewChange(MonthView);
      notices := dateNotices + viewNotices + [ClickedMonth(monthDate), DrilledDown];
    }

    /** A year picked in the decade view: the anchor moves to it, the year
        view is asked for, then `onDrillDown` is called. */
    method YearSelect(yearDate: DateValue) returns (notices: seq<Notice>)
      requires Valid()
      modifies this
      ensures Valid()
      ensures activeDate == (if yearDate.At? then At(yearDate.day, 0) else old(activeDate))
      ensures notices == (if yearDate.At? then [ActiveStartDateChanged(yearDate)] else [])
                       + (if ViewChangeAllowed(config, YearView) then [ViewChanged(YearView)] else [])
                       + [DrilledDown]
      ensures ViewChangeAllowed(config, YearView) ==>
        currentView == YearView && viewHistory == old(viewHistory) + [old(currentView)]
      ensures !ViewChangeAllowed(config, YearView) ==>
        currentView == old(currentView) && viewHistory == old(viewHistory)
      ensures CurrentSelection() == old(CurrentSelection())
    {
      var dateNotices := ActiveDateChange(yearDate);
      var viewNotices := ViewChange(YearView);
      notices := dateNotices + viewNotices + [DrilledDown];
    }

    /** The grids of the month view: the anchor's month and, in double
        view, the month after it; otherwise no second grid. Both are built
        with `new Date(year, …)`, which reads a year 0..99 as 1900 + year. */
    method MonthPair() returns (first: seq<DateUtils.DayCell>, second: seq<DateUtils.DayCell>)
      requires Valid()
      ensures var y := FullYear(activeDate.day.year); var m := activeDate.day.month;
        first == DateUtils.MonthGrid(y, m, DateUtils.LeadingCount(y, m, config.weekStartDay),
                                     config.showFixedNumberOfWeeks, config.showNeighboringMonth)
      ensures var n := NextMonth(FullYear(activeDate.day.year), activeDate.day.month); var y := FullYear(n.year);
        second == if config.showDoubleView
          then DateUtils.MonthGrid(y, n.month, DateUtils.LeadingCount(y, n.month, config.weekStartDay),
                                   config.showFixedNumberOfWeeks, config.showNeighboringMonth)
          else []
    {
      first := DateUtils.GetDaysInMonth(activeDate.day, config.weekStartDay,
                                        config.showFixedNumberOfWeeks, config.showNeighboringMonth);
      second := [];
      if config.showDoubleView {
        var next := FirstOfNextMonth(activeDate.day);
        second := DateUtils.GetDaysInMonth(next, config.weekStartDay,
                                           config.showFixedNumberOfWeeks, config.showNeighboringMonth);
      }
    }
  }

  /** `new Date(d.getFullYear(), d.getMonth() + 1)`: the 1st of the month
      after that of `d` in the year `FullYear(d.year)`. */
  method FirstOfNextMonth(d: Day) returns (r: Day)
    ensures r == NextMonth(FullYear(d.year), d.month)
  {
    r := NewDate(d.year, d.month + 1, 1);
    MakeDateInNextMonth(FullYear(d.year), d.month, 1);
  }
}
