# Calendar widget — a Dafny model

This project models the core of a React calendar component with a small event
manager beside it:

- the date utilities: the month grid of `getDaysInMonth`, `isValidDate`,
  `sanitizeDate`, `formatDate` and the ISO week number of `getWeekNumber`;
- the calendar component's prop checks, its state (current view, view
  history, anchor date, selected value, pending range start, hovered day) and
  its handlers: view change and back, anchor change, date selection in single
  and range mode with the range limit, hover and clear-hover, the keyboard,
  the drill-up/drill-down wrappers, the month/year/decade pick wrappers and
  the month grid pair of the double view;
- the rules that disable dates, months and years, and the classification of
  a day tile (`getTileClassName`);
- the header's previous/next buttons in every view, its year and decade
  labels and when the double arrows show;
- the month view's weekday header, its cutting of the grid into weeks and
  the rules of a day tile (disabled, events, click, hover, event dots);
- the year and decade views' tile loops;
- the event manager's form, adding and removing events, the events of the
  selected day, and the per-type summary.

JavaScript `Date` objects are modelled as `Dates.DateValue`: either `Invalid`
(a NaN time value) or a valid proleptic Gregorian day (`Dates.Day`, month
0..11) with a time of day in milliseconds. `setDate`/`setMonth`/`setFullYear`
normalise out-of-range fields exactly like JavaScript (`Dates.MakeDate`), so a
month shift from 31 January lands on 3 March. `new Date(y, m, d)` and
`Date.UTC(y, m, d)` do the same after reading a year 0..99 as 1900 + y
(`Dates.FullYear`, `Dates.NewDate`), so every date the grid, the year and
decade tiles, the month bounds and the double view build for such a year lies
in 1900 + y; the setters and the copy `new Date(date)` keep the year as it
is. Date comparison is on the local time value; `toDateString` equality
is "same calendar day". The current time is a parameter (`now`, `today`)
wherever the source reads the clock, and every callback prop call
(`onChange`, `onViewChange`, `onRangeHover`, ...) becomes a `Notice` returned
by the handler. The event manager's `Date.now()` identifier is a parameter
too.

Modules: `Wrappers` (Option, Result), `Text` (decimal printing and parsing),
`Dates` (calendar arithmetic), `Seqs` (filter and count), `DateUtils`
(dateUtils.js), `Navigation` (Header.jsx and the view names), `CalendarRules`
(Calendar.jsx's pure rules), `CalendarState` (Calendar.jsx's state class and
handlers), `MonthPanel` (MonthView.jsx), `YearPanel` (YearView.jsx),
`DecadePanel` (DecadeView.jsx), `Events` (EventManager.jsx).

The model follows the code where it behaves in ways one might not expect:

- the grid length of `getDaysInMonth` adds the leading offset to a count that
  already holds the leading days, so a month with many leading days can get a
  seventh week of next-month days (`DateUtils.SeventhWeek`, shown for
  March 2025 with Sunday first in `DateUtils.SeventhWeekExample`);
- `isDateDisabled` checks `minDate`/`maxDate` before a `disableDate`
  predicate, and a given predicate then overrides `disableBeforeToday` and the
  custom disabled dates;
- `isYearDisabled` disables every year before the current one when no
  `disableYear` is given, whatever `disableBeforeToday` says;
- the decade view's drill-up asks for the year view, not the century;
- `formatDate` writes every unknown pattern as mm/dd/yyyy; the round trip is
  stated against the layout the pattern maps to.

## Model

| member | source | states |
|---|---|---|
| DateUtils.GetDaysInMonth | src/components/Calendar/utils/dateUtils.js:2-55 | the three loops produce exactly the grid `MonthGrid` of the month in year `FullYear(year)` for the given week start, fixed-weeks and neighbour flags |
| DateUtils.PreviousMonthDays | src/components/Calendar/utils/dateUtils.js:16-27 | the first loop yields the last `firstDayOfWeek` days of the previous month, tagged previous-month, as the leading cells of the grid of year `FullYear(year)` |
| DateUtils.CurrentMonthDays | src/components/Calendar/utils/dateUtils.js:30-37 | the second loop appends days 1..last of the month of year `FullYear(year)`, tagged current-month, as the next grid cells |
| DateUtils.NextMonthDays | src/components/Calendar/utils/dateUtils.js:43-52 | the third loop appends days 1..remainingCells of the month after that of year `FullYear(year)`, tagged next-month |
| DateUtils.MonthBounds | src/components/Calendar/utils/dateUtils.js:7-8 | `new Date(y, m, 1)` is the 1st and `new Date(y, m + 1, 0)` the last day of month `m` of year `FullYear(y)`, and `new Date(y, m, 0)` the last day of the month before it |
| DateUtils.GridCell | src/components/Calendar/utils/dateUtils.js:18-51 | every cell is a valid midnight date carrying exactly one of the three month tags |
| DateUtils.MonthGrid | src/components/Calendar/utils/dateUtils.js:40-52 | without neighbours the grid has exactly the month's days; with them it is whole weeks holding the leading days and the month, 42 cells when fixed; every cell is a valid midnight with exactly one month tag |
| DateUtils.GridCells | src/components/Calendar/utils/dateUtils.js:16-52 | every cell of a grid prefix is a valid midnight date with exactly one month tag |
| DateUtils.GridCellDayNumber | src/components/Calendar/utils/dateUtils.js:16-52 | consecutive cells hold consecutive days, cell `k` being `k - offset` days after the 1st |
| DateUtils.GridCellMonth | src/components/Calendar/utils/dateUtils.js:20-50 | a cell is tagged current-month exactly when its date lies in the displayed month |
| DateUtils.GridWeekday | src/components/Calendar/utils/dateUtils.js:11 | with neighbours shown, cell `k` falls on weekday `(weekStartDay + k) % 7`, so columns line up with the week start |
| DateUtils.MonthGridLength | src/components/Calendar/utils/dateUtils.js:40-43 | with neighbours the grid is whole weeks holding every day of the month, 42 cells when fixed and at most 49 otherwise; without neighbours exactly the month's days |
| DateUtils.MonthGridCurrentCells | src/components/Calendar/utils/dateUtils.js:30-37 | exactly the cells from the leading days on, one per day of the month, are tagged current-month |
| DateUtils.SeventhWeek | src/components/Calendar/utils/dateUtils.js:40 | when twice the offset plus the month length exceeds 42, the unfixed grid has 49 cells whose seventh row is next-month days |
| DateUtils.SeventhWeekExample | src/components/Calendar/utils/dateUtils.js:40 | March 2025 with Sunday first gets a 49-cell grid with a seventh row of April days |
| DateUtils.March2025Offset | src/components/Calendar/utils/dateUtils.js:11 | 1 March 2025 leads a Sunday-first grid with six days |
| DateUtils.RoundUpToWeeks | src/components/Calendar/utils/dateUtils.js:40 | `Math.ceil(n / 7) * 7` is the least multiple of seven not below `n` |
| DateUtils.SanitizeDate | src/components/Calendar/utils/dateUtils.js:60-67 | a valid date becomes the midnight of its own day; an invalid one becomes the current time; the result is always valid |
| DateUtils.GridDatesAreValid | src/components/Calendar/utils/dateUtils.js:56-58 | `isValidDate` holds for every date of the month grid and fails for an invalid date |
| DateUtils.FormatDate | src/components/Calendar/utils/dateUtils.js:69-89 | the text is empty exactly for an invalid date |
| DateUtils.FormatDateRoundTrip | src/components/Calendar/utils/dateUtils.js:72-88 | for every pattern, the text of a valid date reads back, in that pattern's field order, as the same day |
| DateUtils.FormatDayFirstExample | src/components/Calendar/utils/dateUtils.js:77-78 | 5 March 2025 in dd/mm/yyyy is "05/03/2025" |
| DateUtils.FormatYearFirstExample | src/components/Calendar/utils/dateUtils.js:79-80 | 5 March 2025 in yyyy-mm-dd is "2025-03-05" |
| DateUtils.FormatUnknownPatternExample | src/components/Calendar/utils/dateUtils.js:85-87 | an unknown pattern falls back to mm/dd/yyyy |
| DateUtils.IsoWeekday | src/components/Calendar/utils/dateUtils.js:93 | `getUTCDay() \|\| 7` is 1..7 and agrees with the weekday modulo 7 |
| DateUtils.GetWeekNumber | src/components/Calendar/utils/dateUtils.js:91-97 | the number is the ISO 8601 week number, 1..53, of the date as `Date.UTC` reads it (year 0..99 as 1900 + year); when the week's Thursday falls in a year 0..99 it is instead the weeks counted from 1 January of 1900 + that year |
| DateUtils.UtcDayOfFourDigitYear | src/components/Calendar/utils/dateUtils.js:92 | outside the years 0..99, `Date.UTC` of a date's fields is that date |
| DateUtils.IsoWeekByThursdays | src/components/Calendar/utils/dateUtils.js:94-96 | the week number is one more than the whole weeks from the Thursday of 4 January's week to the date's Thursday |
| DateUtils.ThursdayOfWeek | src/components/Calendar/utils/dateUtils.js:94 | moving by `4 - dayNum` lands on the Thursday of the Monday-to-Sunday week, within three days of the date |
| DateUtils.IsoWeekSameWeek | src/components/Calendar/utils/dateUtils.js:91-97 | all seven days from a Monday share the week number and the week-numbering year |
| DateUtils.IsoWeekExampleNewYear | src/components/Calendar/utils/dateUtils.js:91-97 | Monday 1 January 2024 is in week 1 of 2024 |
| DateUtils.IsoWeekExampleLateDecember | src/components/Calendar/utils/dateUtils.js:91-97 | Monday 29 December 2025 is in week 1 of 2026 |
| DateUtils.IsoWeekExampleWeek53 | src/components/Calendar/utils/dateUtils.js:91-97 | Sunday 3 January 2021 is in week 53 of 2020 |
| Dates.DaysInMonth | src/components/Calendar/utils/dateUtils.js:8 | a month has 28..31 days, 29 exactly for February of a leap year |
| Dates.MakeDateShift | src/components/Calendar/components/MonthView.jsx:43 | `setDate(getDate() + n)` on a valid day is that day moved by exactly `n` days |
| Dates.MakeDateOverflow | src/components/Calendar/utils/dateUtils.js:46 | a day number past the month's end spills into the following month |
| Dates.MakeDateInPreviousMonth | src/components/Calendar/utils/dateUtils.js:19 | `new Date(y, m - 1, d)`, its year read through `FullYear`, for a day of the previous month is that day, across a year boundary too |
| Dates.TwoDigitYearExamples | src/components/Calendar/utils/dateUtils.js:7 | `new Date(50, 5, 15)` is 15 June 1950 while `setFullYear(50)` keeps year 50; `new Date(0, -1, 31)` is 31 December 1899; a four-digit year is kept |
| Dates.MonthEnd | src/components/Calendar/utils/dateUtils.js:8 | day 0 of a month is the last day of the month before |
| Dates.DayNumberOrder | src/components/Calendar/Calendar.jsx:241-246 | comparing day numbers orders days the way the calendar does |
| Dates.BeforeByDay | src/components/Calendar/Calendar.jsx:241-246 | `<` on two valid dates compares the day first, then the time of day |
| Dates.AddDaysInverse | src/components/Calendar/Calendar.jsx:297-320 | moving `n` days and back again returns to the same day |
| Dates.SetDate | src/components/Calendar/Calendar.jsx:298 | `setDate(getDate() + n)` on a copy moves the day by exactly `n` days |
| Dates.WeekdayOfAddDays | src/components/Calendar/components/MonthView.jsx:43 | moving `n` days moves the weekday `n` places cyclically |
| CalendarRules.ValidateProps | src/components/Calendar/Calendar.jsx:115-139 | an invalid date becomes now; a calendar type other than gregorian is an error with the source's message and only then; week start outside 0..6 becomes 0; an unknown date format becomes mm/dd/yyyy; range mode exactly for "range"; an unknown view becomes the month view |
| CalendarRules.IsDateDisabled | src/components/Calendar/Calendar.jsx:238-251 | an invalid date is disabled, and so is one outside the bounds; without a `disableDate` predicate, a valid date inside the bounds is disabled exactly when it is before today with `disableBeforeToday` set, or on a custom disabled day |
| CalendarRules.DaysBeforeTodayDisabled | src/components/Calendar/Calendar.jsx:241-248 | with `disableBeforeToday` alone and inside the bounds, a midnight tile is disabled exactly when its day comes before today's |
| CalendarRules.CustomDayDisabled | src/components/Calendar/Calendar.jsx:242-248 | without a predicate, a date on the day of a valid custom disabled date is disabled, at any time of day |
| CalendarRules.BoundsBeforePredicate | src/components/Calendar/Calendar.jsx:245-247 | with a `disableDate` predicate, a valid date is disabled exactly when it is outside the bounds or the predicate says so |
| CalendarRules.MidnightBounds | src/components/Calendar/Calendar.jsx:245-246 | with midnight bounds, a midnight day is out of bounds exactly when it is before the first or after the last allowed day |
| CalendarRules.MinDateWithTimeDisablesItsDay | src/components/Calendar/Calendar.jsx:245 | a `minDate` later than midnight disables the midnight of its own day |
| CalendarRules.IsYearDisabled | src/components/Calendar/Calendar.jsx:253-262 | a `disableYear` predicate alone decides when given; otherwise every custom disabled year is disabled |
| CalendarRules.PastYearsDisabled | src/components/Calendar/Calendar.jsx:253-262 | without `disableYear`, a year is disabled exactly when it is before the current year or listed, so every past year is |
| CalendarRules.IsMonthDisabled | src/components/Calendar/Calendar.jsx:264-275 | an invalid month date is disabled; with `disableYear` a month is disabled exactly when its year is |
| CalendarRules.MonthsBeforeTodayDisabled | src/components/Calendar/Calendar.jsx:264-275 | with only `disableBeforeToday`, a month is disabled exactly when it starts before the current month |
| CalendarRules.FirstEventOn | src/components/Calendar/Calendar.jsx:340 | the event found is a valid-dated event of the list on the tile's day; none is found exactly when the list has no such event |
| CalendarRules.FirstEventIsFirstOfDay | src/components/Calendar/Calendar.jsx:340 | for a valid date, the event found is the first of the day's events |
| CalendarRules.GetTileClass | src/components/Calendar/Calendar.jsx:336-377 | an invalid date gets no class; otherwise the tile carries its selection mark, an event type exactly when some valid event falls on its day, and the holiday flag exactly when a valid holiday does |
| CalendarRules.TileMark | src/components/Calendar/Calendar.jsx:346-371 | a range preview needs range mode, a pending start and a hovered day; "selected" needs a single value; "in range" and "end" need a list with an end; with no value and no preview a tile is unmarked |
| CalendarRules.TileClick | src/components/Calendar/components/YearView.jsx:57 | a click on a month tile, or a year tile (DecadeView.jsx line 64), picks the tile's date exactly when the tile is not disabled |
| CalendarRules.PreviewExactlyBetween | src/components/Calendar/Calendar.jsx:346-353 | with a pending start and a hovered day, exactly the days between them, in either order, are range previews |
| CalendarRules.PreviewFlagsHoveredDay | src/components/Calendar/Calendar.jsx:352 | within the preview, the hovered day and only it is flagged as the range end |
| CalendarRules.CommittedRangeMarks | src/components/Calendar/Calendar.jsx:359-369 | a committed pair marks its first day as start, its last as end and the days strictly between as in range |
| CalendarRules.SingleValueMarks | src/components/Calendar/Calendar.jsx:370-371 | a single value marks its own day as selected and no other |
| CalendarRules.RangeLimitInDays | src/components/Calendar/Calendar.jsx:218-222 | for two midnights, the limit check admits the second click exactly when the limit is 0 or the days are at most `rangeLimit` apart |
| CalendarRules.WithinRangeLimit | src/components/Calendar/Calendar.jsx:218-222 | a limit of 0 admits every second click and a negative limit none |
| CalendarRules.RangeLimitSymmetric | src/components/Calendar/Calendar.jsx:219 | the limit check does not depend on which of the two clicks came first |
| CalendarRules.SortedPair | src/components/Calendar/Calendar.jsx:223 | the sorted range holds the two clicked dates, earlier first, the start first when the dates tie |
| CalendarState.DefaultDetailsReach | src/components/Calendar/Calendar.jsx:175-182 | with month as the most and year as the least detailed view, only the month and year views can be entered |
| CalendarState.ViewChangeAllowed | src/components/Calendar/Calendar.jsx:175-182 | a view listed as disabled is refused; the month view is refused only when listed |
| CalendarState.SelectDate | src/components/Calendar/Calendar.jsx:208-236 | an invalid date changes nothing and reports nothing; a call that reports nothing leaves the selection as it was; a report is exactly one `onChange` with the new value |
| CalendarState.HoverDate | src/components/Calendar/Calendar.jsx:277-289 | the value and the pending start never change; the hovered day changes only to the given valid date; at most one report, of the pending start and the new hovered day |
| CalendarState.ClearHover | src/components/Calendar/Calendar.jsx:536-540 | the value and the pending start stay and the hovered day is gone |
| CalendarState.ClearUndoesHover | src/components/Calendar/Calendar.jsx:277-289 | hovering a day and then clearing leaves the same selection as clearing at once |
| CalendarState.HoverReportFollowsObjectCall | src/components/Calendar/Calendar.jsx:283 | with a `tileDisabled` prop, the hover report follows the prop's answer for `{ date }`, while the day tile follows its answer for the bare date |
| CalendarState.KeyStep | src/components/Calendar/Calendar.jsx:296-320 | the four arrow keys and only they move the anchor, by -1, +1, -7 or +7 days |
| CalendarState.HandlersKeepSelectionOk | src/components/Calendar/Calendar.jsx:208-289 | date selection, hover and clear-hover keep the pending start valid, in range mode only and equal to the selected value, and a hovered day only beside a pending start |
| CalendarState.TwoClicksSelectRange | src/components/Calendar/Calendar.jsx:211-228 | two valid clicks within the limit select the two dates in time order, leave nothing pending and report `[a]` then the sorted pair |
| CalendarState.ClickBeyondLimitIgnored | src/components/Calendar/Calendar.jsx:218-222 | a second click beyond the limit changes nothing and reports nothing |
| CalendarState.HoverPreviewsSpan | src/components/Calendar/Calendar.jsx:277-289 | after hovering a day with a pending start, the previewed tiles are exactly the days between the start and the hovered day |
| CalendarState.CommittedRangeTiles | src/components/Calendar/Calendar.jsx:223-227 | after a range is committed, its ends are marked start and end and the days between in range |
| CalendarState.SingleClickMarksDay | src/components/Calendar/Calendar.jsx:229-233 | in single mode a click marks its own day's tile selected and no other |
| CalendarState.ArrowKeysUndo | src/components/Calendar/Calendar.jsx:297-320 | the opposite arrow key undoes a move, and up and down keep the weekday |
| CalendarState.Calendar.constructor | src/components/Calendar/Calendar.jsx:141-149 | the initial state has the checked view, no history, the value prop, nothing pending, and the anchor at the midnight of `activeStartDate` or else `date`, now when invalid |
| CalendarState.Calendar.ViewChange | src/components/Calendar/Calendar.jsx:173-188 | an allowed view becomes current with the old one pushed on the history and reported; a refused one changes nothing |
| CalendarState.Calendar.BackView | src/components/Calendar/Calendar.jsx:190-197 | the last view of a non-empty history becomes current, is popped and reported; an empty history changes nothing |
| CalendarState.Calendar.ActiveDateChange | src/components/Calendar/Calendar.jsx:199-206 | a valid date becomes the anchor at its midnight and is reported unchanged; an invalid one is ignored |
| CalendarState.Calendar.DateSelect | src/components/Calendar/Calendar.jsx:208-236 | the selection and the reports are those of `SelectDate`, and the invariant is kept |
| CalendarState.Calendar.Hover | src/components/Calendar/Calendar.jsx:277-289 | the selection and the reports are those of `HoverDate`: the report is left out when `tileDisabled`, called with the object `{ date }`, answers true |
| CalendarState.Calendar.ClearHovered | src/components/Calendar/Calendar.jsx:536-540 | the hovered day is forgotten and the hover callback told the range has no end |
| CalendarState.Calendar.KeyDown | src/components/Calendar/Calendar.jsx:291-334 | outside the month view nothing happens; arrows move the anchor by 1 or 7 days; Enter selects the anchor unless `isDateDisabled` disables it; Backspace goes back a view and reports it when there is one to go back to; any other key does nothing and reports nothing |
| CalendarState.Calendar.Navigate | src/components/Calendar/components/Header.jsx:26-72 | an arrow button moves the anchor to the midnight of the shifted date and reports the shifted date |
| CalendarState.Calendar.DayDrillUp | src/components/Calendar/Calendar.jsx:444-447 | asks for the month view, then reports the drill-up |
| CalendarState.Calendar.MonthDrillDown | src/components/Calendar/Calendar.jsx:525-528 | asks for the day view, then reports the drill-down |
| CalendarState.Calendar.MonthDrillUp | src/components/Calendar/Calendar.jsx:529-532 | asks for the year view, then reports the drill-up |
| CalendarState.Calendar.YearDrillUp | src/components/Calendar/Calendar.jsx:474-477 | asks for the decade view, then reports the drill-up |
| CalendarState.Calendar.DecadeDrillUp | src/components/Calendar/Calendar.jsx:498-501 | asks for the year view, then reports the drill-up |
| CalendarState.Calendar.MonthSelect | src/components/Calendar/Calendar.jsx:463-468 | moves the anchor to the picked month, asks for the month view, reports the month click and the drill-down |
| CalendarState.Calendar.YearSelect | src/components/Calendar/Calendar.jsx:488-492 | moves the anchor to the picked year, asks for the year view, reports the drill-down |
| CalendarState.Calendar.MonthPair | src/components/Calendar/Calendar.jsx:409-424 | the first grid is the anchor's month in year `FullYear(year)`; the second, in double view, is the grid of the month after it (its year read through `FullYear` once more), and empty otherwise |
| CalendarState.FirstOfNextMonth | src/components/Calendar/Calendar.jsx:413 | `new Date(y, m + 1)` is the 1st of the month after month `m` of year `FullYear(y)`, across a year end too |
| Navigation.ParseView | src/components/Calendar/Calendar.jsx:136-139 | a recognised view name denotes the view it names |
| Navigation.ParseViewName | src/components/Calendar/Calendar.jsx:136 | every view's own name is recognised as that view |
| Navigation.ShiftMonths | src/components/Calendar/components/Header.jsx:29 | a month shift keeps a valid date valid, an invalid one invalid, and the time of day |
| Navigation.ShiftYears | src/components/Calendar/components/Header.jsx:31 | a year shift keeps a valid date valid, an invalid one invalid, and the time of day |
| Navigation.ShiftByZero | src/components/Calendar/components/Header.jsx:27 | a shift by nothing leaves the copied date as it is |
| Navigation.Previous | src/components/Calendar/components/Header.jsx:26-36 | the previous button keeps validity and the time of day, and in the day view passes the date on unchanged |
| Navigation.Next | src/components/Calendar/components/Header.jsx:38-48 | the next button keeps validity and the time of day, and in the day view passes the date on unchanged |
| Navigation.Previous2 | src/components/Calendar/components/Header.jsx:50-60 | the double previous button keeps validity and the time of day, and in the day view passes the date on unchanged |
| Navigation.Next2 | src/components/Calendar/components/Header.jsx:62-72 | the double next button keeps validity and the time of day, and in the day view passes the date on unchanged |
| Navigation.ShiftMonthsKeepsDay | src/components/Calendar/components/Header.jsx:28-29 | a month shift keeps time and day of the month when the target month has that day |
| Navigation.ShiftMonthsRollsOver | src/components/Calendar/components/Header.jsx:28-29 | otherwise it rolls over into the month after the target |
| Navigation.NextMonthRollOverExample | src/components/Calendar/components/Header.jsx:40-41 | one month on from 31 January 2025 is 3 March 2025 |
| Navigation.ShiftYearsKeepsDay | src/components/Calendar/components/Header.jsx:30-33 | a year shift keeps month and day except from 29 February into a common year |
| Navigation.NextThenPreviousRestores | src/components/Calendar/components/Header.jsx:26-48 | in the year and decade views, next then previous returns to the same date, except from 29 February |
| Navigation.NextThenPreviousMonth | src/components/Calendar/components/Header.jsx:26-48 | in the month view it returns for days 1 to 28 |
| Navigation.LeapDayExample | src/components/Calendar/components/Header.jsx:30-31 | from 29 February 2024 one year on is 1 March 2025, and back again 1 March 2024 |
| Navigation.ArrowTarget | src/components/Calendar/components/Header.jsx:26-72 | every arrow keeps a valid date valid, an invalid one invalid, and the time of day |
| Navigation.DecadeStart | src/components/Calendar/components/Header.jsx:86 | `Math.floor(year / 10) * 10` is a multiple of ten within the nine years up to the year |
| Navigation.DecadeStartExamples | src/components/Calendar/components/Header.jsx:86 | 2025 lies in the decade from 2020, and year -5 in the decade from -10 |
| Navigation.YearLabel | src/components/Calendar/components/Header.jsx:84 | the year view's label reads back as the year |
| Navigation.DecadeLabel | src/components/Calendar/components/Header.jsx:86-87 | the decade label reads back, before its " - ", as the decade's first year and, after it, as its last |
| Navigation.DecadeLabelNamesDecade | src/components/Calendar/components/Header.jsx:86-87 | two years get the same decade label exactly when they lie in the same decade |
| Navigation.ShowsDoubleArrows | src/components/Calendar/components/Header.jsx:95 | the double arrows show whenever a label is supplied or the view is not the month view, and without a label exactly outside the month view |
| Navigation.DoubleArrowsStepAsCoarserView | src/components/Calendar/components/Header.jsx:50-72 | the month view's double arrows step like the year view's single arrows, and the year view's like the decade view's |
| MonthPanel.WeekdayHeader | src/components/Calendar/components/MonthView.jsx:36-58 | the header loop yields seven days, starting at the week start on or before the 1st, column `i` on weekday `(weekStartDay + i) % 7` |
| MonthPanel.HeaderWeekday | src/components/Calendar/components/MonthView.jsx:39-43 | the header's day `i` falls on weekday `(weekStartDay + i) % 7` |
| MonthPanel.HeaderStart | src/components/Calendar/components/MonthView.jsx:37-39 | `setDate(1)` then `setDate(1 - offset)` lands on the header's first day |
| MonthPanel.HeaderStep | src/components/Calendar/components/MonthView.jsx:42-43 | the header's day `i` is `i` days after its first |
| MonthPanel.HeaderMatchesGrid | src/components/Calendar/components/MonthView.jsx:36-58 | with neighbours shown, every grid cell lies under a header column of its own weekday, and outside the years 0..99 the header lists the days of the grid's first row |
| MonthPanel.ShownFirstRow | src/components/Calendar/components/MonthView.jsx:36-58 | outside the years 0..99, grid cell `k` of the first row is the header's day `k` |
| MonthPanel.ShownCellWeekday | src/components/Calendar/components/MonthView.jsx:36-58 | grid cell `k` is a date of weekday `(weekStartDay + k) % 7` |
| MonthPanel.FirstRowCell | src/components/Calendar/components/MonthView.jsx:36-58 | grid cell `k` of the first row is the header's day `k` |
| MonthPanel.ChunkWeeks | src/components/Calendar/components/MonthView.jsx:150-153 | the rows concatenate back to the cells, there are `ceil(n / 7)` of them, all of seven cells but a shorter non-empty last, row `w` holding cells `7w..7w+6` |
| MonthPanel.HiddenNeighboursDisableNothingMore | src/components/Calendar/components/MonthView.jsx:80 | without neighbouring months a tile is disabled exactly when the date rule disables it |
| MonthPanel.IsDisabled | src/components/Calendar/components/MonthView.jsx:80 | a date the rule disables gives a disabled tile; with neighbours shown, or in the month itself, the tile is disabled exactly when the rule disables its date |
| MonthPanel.DayEvents | src/components/Calendar/components/MonthView.jsx:93-95 | a tile lists exactly the events on its calendar day |
| MonthPanel.ClickActions | src/components/Calendar/components/MonthView.jsx:101-108 | a click on a disabled tile does nothing; otherwise it selects the date and then, when asked, clicks each of the day's events in order |
| MonthPanel.EventClicks | src/components/Calendar/components/MonthView.jsx:105 | one event click per event, in list order |
| MonthPanel.HoverTarget | src/components/Calendar/components/MonthView.jsx:109 | the mouse entering a tile hovers its date exactly when it is not disabled |
| MonthPanel.EventDots | src/components/Calendar/components/MonthView.jsx:124-140 | a tile shows one dot for each of its first three events, and a "+n" exactly when there are more, the dots and `n` adding up to the day's events |
| MonthPanel.DotsOf | src/components/Calendar/components/MonthView.jsx:126-131 | each dot carries its event's type (default when empty), colour and title |
| MonthPanel.TodayAtMostOnce | src/components/Calendar/components/MonthView.jsx:81 | at most one tile of a month grid is marked as today |
| YearPanel.MonthTiles | src/components/Calendar/components/YearView.jsx:15-33 | twelve tiles, month `m` on the 1st of month `m` of year `FullYear(year)`, disabled by the rule on that date, selected exactly when the value has a valid date in month `m` of the year as given |
| YearPanel.OneDateSelectsItsMonth | src/components/Calendar/components/YearView.jsx:22-24 | a single valid date selects its own month of its own year and no other |
| YearPanel.RangeSelectsEndMonths | src/components/Calendar/components/YearView.jsx:22-23 | a committed range selects the months of its two ends, not the months between |
| YearPanel.CurrentYearTiles | src/components/Calendar/components/YearView.jsx:21 | with the calendar's month rule and only `disableBeforeToday`, the tiles of year `FullYear(today.year)` are disabled before the current month and every tile of an earlier year is |
| DecadePanel.YearTiles | src/components/Calendar/components/DecadeView.jsx:15-39 | ten or thirteen tiles for consecutive years from the decade start (one earlier with neighbours), each on 1 January of `FullYear(year)`, disabled by the year rule, selected when the value holds that year, marked current-decade exactly for the decade's own years |
| DecadePanel.SameDecade | src/components/Calendar/components/DecadeView.jsx:26 | the range test for the current decade agrees with having the same decade start |
| DecadePanel.NeighbouringTiles | src/components/Calendar/components/DecadeView.jsx:20-26 | with neighbours the first tile and the last two are the neighbouring years; without them every tile is in the decade |
| DecadePanel.AnchorYearListed | src/components/Calendar/components/DecadeView.jsx:15-23 | the anchor's own year is always among the tiles |
| DecadePanel.OneDateSelectsItsYear | src/components/Calendar/components/DecadeView.jsx:27-30 | a single valid date selects exactly its own year |
| DecadePanel.YearSelectedIffSomeMonth | src/components/Calendar/components/DecadeView.jsx:27-30 | a year tile is selected exactly when the year view of that year selects one of its month tiles |
| Events.EventsOn | src/components/EventManager.jsx:48-50 | exactly the events on the day's calendar day, drawn from the list |
| Events.EventsOnAppend | src/components/EventManager.jsx:49 | the day filter keeps list order |
| Events.TodayEvents | src/components/EventManager.jsx:48-50 | no events without a selected date, otherwise the selected day's events |
| Events.RemoveEvent | src/components/EventManager.jsx:44-46 | the result keeps exactly the events with another id |
| Events.RemoveEventAppend | src/components/EventManager.jsx:45 | removal keeps the order of the kept events |
| Events.RemoveAbsentId | src/components/EventManager.jsx:44-46 | removing an id no event carries leaves the list unchanged |
| Events.AddedEventListedOnItsDay | src/components/EventManager.jsx:24-42 | an added event is listed last among the events of its day |
| Events.RemoveAddedEvent | src/components/EventManager.jsx:24-46 | removing an added event by its fresh id gives back the list from before the addition |
| Events.FindType | src/components/EventManager.jsx:103 | the type found has the looked-up value; none is found exactly when no type has it |
| Events.ColorForTypeKnown | src/components/EventManager.jsx:102-108 | choosing a listed type picks that type's colour |
| Events.ColorForTypeUnknown | src/components/EventManager.jsx:102-108 | choosing an unlisted type picks the default colour |
| Events.ColorForType | src/components/EventManager.jsx:102-108 | the colour chosen is the default colour or the colour of a listed type with that value |
| Events.KindClass | src/components/Calendar/components/MonthView.jsx:129 | the class type is the event's type, or "default" when that is empty |
| Events.TrimEmpty | src/components/EventManager.jsx:25 | a title trims to nothing exactly when it is white space only |
| Events.Trim | src/components/EventManager.jsx:25 | the trimmed title is a slice of the title that leaves out only white space at either end, and neither of its own ends is white space |
| Events.Breakdown | src/components/EventManager.jsx:199-211 | each summary line is a listed type with its event count, shown only when positive, and every type with events has its line |
| Events.TypeBreakdown | src/components/EventManager.jsx:197-211 | each summary line is a listed type with its positive event count, and every listed type with events has its line |
| Events.TypeBreakdownTotal | src/components/EventManager.jsx:197-211 | when every event has a listed type, the summary counts add up to the number of events |
| Events.EventManager.constructor | src/components/EventManager.jsx:5-12 | the form starts closed and holds the default fields |
| Events.EventManager.StartAdding | src/components/EventManager.jsx:63 | the add button opens the form and keeps its fields |
| Events.EventManager.Cancel | src/components/EventManager.jsx:93 | the cancel button closes the form and keeps its fields |
| Events.EventManager.SetTitle | src/components/EventManager.jsx:88 | only the title field changes |
| Events.EventManager.ChooseType | src/components/EventManager.jsx:102-108 | the type and that type's colour are set, nothing else changes |
| Events.EventManager.SetColor | src/components/EventManager.jsx:122 | only the colour field changes |
| Events.EventManager.SetTime | src/components/EventManager.jsx:130 | only the time field changes |
| Events.EventManager.SetDescription | src/components/EventManager.jsx:137 | only the description field changes |
| Events.EventManager.AddEvent | src/components/EventManager.jsx:24-42 | a blank title or no selected date does nothing; otherwise the new list is the old one with the form's event appended, and the form is reset and closed |
| Text.ParseIntToString | src/components/Calendar/utils/dateUtils.js:78-87 | printing an integer and reading it back gives the integer |
| Text.PadStart2Number | src/components/Calendar/utils/dateUtils.js:78-87 | `padStart(2, '0')` of a number below 100 is two digits that read back as the number |

## Left out

- Rendering, CSS class strings, the theme, `className` props, aria labels, the locale-dependent labels (month names, weekday names, `toLocaleDateString`), and the header's month label and second label in double view: they are output text, not behaviour.
- `tileClassName`'s base classes and the tile's CSS string: `CalendarRules.GetTileClass` returns the classification (mark, event type, holiday) that the string is built from.
- JavaScript number width: years, day numbers and `rangeLimit` are unbounded integers, and the ±8.64e15 ms range of a `Date` is not modelled; `weekStartDay` and `rangeLimit` are integers (a fractional or non-numeric prop is not modelled).
- Time zones and daylight-saving time: a day is always 86 400 000 ms long, so the range limit in `CalendarRules.WithinRangeLimit` is exact in milliseconds; `getWeekNumber`'s UTC construction is modelled on calendar days.
- Reading the clock: `new Date()` and `Date.now()` become the `now`, `today` and `id` parameters.
- Callback props become `Notice` values returned by the handlers; the caller's own callback functions are not run. `disableDate`/`disableYear` are total functions passed in. `tileDisabled` is passed in twice: as its answer for a bare date (the day tile) and as its answer for the object `{ date }` (the hover handler).
- The `useEffect` that resets an invalid anchor: the class invariant `Valid()` proves the anchor is always valid, so the reset never fires.
- `hoverRef` (written, never read), React's memoisation, re-rendering and the stale-closure behaviour of `useCallback`.
- DOM focus after the arrow keys in `handleKeyDown`.
- Placeholder cells of the month grid: `getDaysInMonth` never produces them.
- The week-number column (`renderWeekNumbers`) and `onClickWeekNumber`; `getWeekNumber` itself is modelled.
- `tileContent`, `memoizedTileContent`, the event tooltip, `renderEvent` and `customEventStyles`.
- `aria-pressed` of a day tile, which repeats the selection test of the tile class.
- The day view (DayView.jsx) and the custom view renderers (`renderDayView`, `renderMonthView`, ...).
- The demo application, the configuration panel and the build configuration.
- `disableMonth`, which the component accepts but never reads.
- The event field `type` is named `kind` in the model and the event type's `label` is named `name`, because `type` is a Dafny keyword.
- Events.EventManager.AddEvent: the new event's date is the selected `DateValue` itself; the copy `new Date(selectedDate)` makes is not modelled as a separate object.
- DateUtils.SanitizeDate: idempotence is not stated as a lemma, since it follows from the ensures (a valid date maps to its own midnight).
- CalendarState.Calendar.BackView: that a back step after an allowed view change restores the previous view is not stated as a lemma; it follows from the ensures of `ViewChange` and `BackView` together.
- Navigation.ParseView: only the direction "recognised name ⇒ that view" is in its ensures; the converse is `Navigation.ParseViewName`.
- CalendarState.Calendar.Hover: a `tileDisabled` written for bare dates that throws when handed `{ date }` is not modelled; the answer for the object is an arbitrary total function.
- DateUtils.GetWeekNumber: when the week's Thursday falls in a year 0..99, the result is stated as the count from 1 January of 1900 + that year, which is not an ISO week number.
- MonthPanel.HeaderMatchesGrid: the header copies the anchor date with its year as it is while the grid reads a year 0..99 as 1900 + year, so for those years only the weekdays of header and grid are stated to agree, not the days of the first row.
