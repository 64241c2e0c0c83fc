/** The calendar's views and the header's navigation: the arrow buttons
    shift the anchor date by a step that depends on the view, and the header
    labels the year and the decade being shown. */
module Navigation {
  import opened Wrappers
  import opened Dates
  import opened Text

  /** The four views, from the most to the least detailed. */
  datatype View = DayView | MonthView | YearView | DecadeView

  /** A view's name as the component's props spell it. */
  function ViewName(v: View): string {
    match v
    case DayView => "day"
    case MonthView => "month"
    case YearView => "year"
    case DecadeView => "decade"
  }

  /** The view a name denotes, if any. */
  function ParseView(s: string): (r: Option<View>)
    ensures r.Some? ==> ViewName(r.value) == s
  {
    if s == "day" then Some(DayView)
    else if s == "month" then Some(MonthView)
    else if s == "year" then Some(YearView)
    else if s == "decade" then Some(DecadeView)
    else None
  }

  /** Every view's name is recognised as that view. */
  lemma ParseViewName(v: View)
    ensures ParseView(ViewName(v)) == Some(v)
  {
  }

  /** `setMonth(getMonth() + k)` on a copy of `date`: the same day of the
      month and time of day in the month `k` months on, rolled over into the
      following month when that month is too short. An invalid date stays
      invalid. */
  function ShiftMonths(date: DateValue, k: int): (r: DateValue)
    ensures r.At? <==> date.At?
    ensures r.At? ==> r.time == date.time
  {
    if date.Invalid? then Invalid
    else At(MakeDate(date.day.year, date.day.month + k, date.day.day), date.time)
  }

  /** `setFullYear(getFullYear() + k)` on a copy of `date`. */
  function ShiftYears(date: DateValue, k: int): (r: DateValue)
    ensures r.At? <==> date.At?
    ensures r.At? ==> r.time == date.time
  {
    if date.Invalid? then Invalid
    else At(MakeDate(date.day.year + k, date.day.month, date.day.day), date.time)
  }

  /** A shift by nothing leaves the date as it is. */
  lemma ShiftByZero(date: DateValue)
    ensures ShiftMonths(date, 0) == date && ShiftYears(date, 0) == date
  {
    if date.At? {
      MakeDateInMonth(date.day.year, date.day.month, date.day.day);
    }
  }

  /** `handlePrevious`: one month, year or decade back; the day view passes
      the date on unchanged. */
  function Previous(date: DateValue, view: View): (r: DateValue)
    ensures r.At? <==> date.At?
    ensures r.At? ==> r.time == date.time
    ensures view == DayView ==> r == date
  {
    match view
    case MonthView => ShiftMonths(date, -1)
    case YearView => ShiftYears(date, -1)
    case DecadeView => ShiftYears(date, -10)
    case DayView => date
  }

  /** `handleNext`. */
  function Next(date: DateValue, view: View): (r: DateValue)
    ensures r.At? <==> date.At?
    ensures r.At? ==> r.time == date.time
    ensures view == DayView ==> r == date
  {
    match view
    case MonthView => ShiftMonths(date, 1)
    case YearView => ShiftYears(date, 1)
    case DecadeView => ShiftYears(date, 10)
    case DayView => date
  }

  /** `handlePrevious2`: one year, decade or century back. */
  function Previous2(date: DateValue, view: View): (r: DateValue)
    ensures r.At? <==> date.At?
    ensures r.At? ==> r.time == date.time
    ensures view == DayView ==> r == date
  {
    match view
    case MonthView => ShiftYears(date, -1)
    case YearView => ShiftYears(date, -10)
    case DecadeView => ShiftYears(date, -100)
    case DayView => date
  }

  /** `handleNext2`. */
  function Next2(date: DateValue, view: View): (r: DateValue)
    ensures r.At? <==> date.At?
    ensures r.At? ==> r.time == date.time
    ensures view == DayView ==> r == date
  {
    match view
    case MonthView => ShiftYears(date, 1)
    case YearView => ShiftYears(date, 10)
    case DecadeView => ShiftYears(date, 100)
    case DayView => date
  }

  /** The year and month (0..11) `k` months after `d`'s month. */
  function TargetMonth(d: Day, k: int): (ym: (int, int))
    ensures 0 <= ym.1 < 12
  {
    (d.year + (d.month + k) / 12, (d.month + k) % 12)
  }

  /** A month shift keeps the day of the month when the target month has
      that day. */
  lemma ShiftMonthsKeepsDay(d: Day, t: TimeOfDay, k: int)
    requires d.day <= DaysInMonth(TargetMonth(d, k).0, TargetMonth(d, k).1)
    ensures ShiftMonths(At(d, t), k) == At(Date(TargetMonth(d, k).0, TargetMonth(d, k).1, d.day), t)
  {
    MakeDateInRange(d.year, d.month + k, d.day);
  }

  /** Otherwise it rolls over into the month after the target instead of
      clamping: the excess days count on from its 1st. */
  lemma ShiftMonthsRollsOver(d: Day, t: TimeOfDay, k: int)
    requires d.day > DaysInMonth(TargetMonth(d, k).0, TargetMonth(d, k).1)
    ensures var (y, m) := TargetMonth(d, k);
      var excess := d.day - DaysInMonth(y, m);
      && 1 <= excess <= 3
      && ShiftMonths(At(d, t), k) == At(Date(NextMonth(y, m).year, NextMonth(y, m).month, excess), t)
  {
    var next := NextMonth(TargetMonth(d, k).0, TargetMonth(d, k).1);
    var excess := d.day - DaysInMonth(TargetMonth(d, k).0, TargetMonth(d, k).1);
    MakeDateOverflow(d.year, d.month + k, d.day);
    ShiftMonthsOfDay(d, t, k, Date(next.year, next.month, excess));
  }

  lemma ShiftMonthsOfDay(d: Day, t: TimeOfDay, k: int, e: Day)
    requires MakeDate(d.year, d.month + k, d.day) == e
    ensures ShiftMonths(At(d, t), k) == At(e, t)
  {
  }

  /** 31 January 2025, one month on, is 3 March 2025. */
  lemma NextMonthRollOverExample()
    ensures Next(At(Date(2025, 0, 31), 0), MonthView) == At(Date(2025, 2, 3), 0)
  {
    ThirtyFirstOfFebruary();
    ShiftMonthsOfDay(Date(2025, 0, 31), 0, 1, Date(2025, 2, 3));
  }

  lemma ThirtyFirstOfFebruary()
    ensures MakeDate(2025, 1, 31) == Date(2025, 2, 3)
  {
    assert DaysInMonth(2025 + 1 / 12, 1 % 12) == 28;
    MakeDateCarry(2025, 1, 31);
    MakeDateInRange(2025, 2, 3);
  }

  /** A year shift keeps month and day except from 29 February into a
      common year. */
  lemma ShiftYearsKeepsDay(d: Day, t: TimeOfDay, k: int)
    requires !(d.month == 1 && d.day == 29) || IsLeapYear(d.year + k)
    ensures ShiftYears(At(d, t), k) == At(Date(d.year + k, d.month, d.day), t)
  {
    assert d.month / 12 == 0 && d.month % 12 == d.month;
    MakeDateInRange(d.year + k, d.month, d.day);
  }

  /** In the year and decade views, going forward and back again returns
      to the anchor, unless it is 29 February. */
  lemma NextThenPreviousRestores(date: DateValue, view: View)
    requires view == YearView || view == DecadeView
    requires date.At? ==> !(date.day.month == 1 && date.day.day == 29)
    ensures Previous(Next(date, view), view) == date
  {
    if date.At? {
      var k := if view == YearView then 1 else 10;
      ShiftYearsKeepsDay(date.day, date.time, k);
      var d': Day := Date(date.day.year + k, date.day.month, date.day.day);
      ShiftYearsKeepsDay(d', date.time, -k);
    }
  }

  /** In the month view it returns for days 1 to 28, which every month has. */
  lemma NextThenPreviousMonth(date: DateValue)
    requires date.At? ==> date.day.day <= 28
    ensures Previous(Next(date, MonthView), MonthView) == date
  {
    if date.At? {
      var d := date.day;
      var next := NextMonth(d.year, d.month);
      MakeDateInNextMonth(d.year, d.month, d.day);
      assert Next(date, MonthView) == At(Date(next.year, next.month, d.day), date.time);
      assert PreviousMonth(next.year, next.month) == Date(d.year, d.month, 1);
      MakeDateInPreviousMonth(next.year, next.month, d.day);
    }
  }

  /** From 29 February 2024 one year on is 1 March 2025, and one year back
      from there is 1 March 2024, not the anchor. */
  lemma LeapDayExample()
    ensures Next(At(Date(2024, 1, 29), 0), YearView) == At(Date(2025, 2, 1), 0)
    ensures Previous(Next(At(Date(2024, 1, 29), 0), YearView), YearView) == At(Date(2024, 2, 1), 0)
  {
    MakeDateCarry(2025, 1, 29);
    MakeDateInRange(2025, 2, 1);
    MakeDateInRange(2024, 2, 1);
  }

  /** The first year of the decade holding `year`, rounding down also for
      negative years (Dafny's division by a positive number is floor
      division). */
  function DecadeStart(year: int): (s: int)
    ensures s % 10 == 0 && s <= year < s + 10
  {
    (year / 10) * 10
  }

  /** The header label of the year view. */
  function YearLabel(year: int): (r: string)
    ensures ParseInt(r) == Some(year)
  {
    ParseIntToString(year);
    IntToString(year)
  }

  /** The header label of the decade view: "S - E" for its first and last
      years. Up to its first space it reads back as the decade's first
      year, and after the " - " that follows as its last. */
  function DecadeLabel(year: int): (r: string)
    ensures FirstSpace(r) + 3 <= |r| && r[FirstSpace(r)..FirstSpace(r) + 3] == " - "
    ensures ParseInt(r[..FirstSpace(r)]) == Some(DecadeStart(year))
    ensures ParseInt(r[FirstSpace(r) + 3..]) == Some(DecadeStart(year) + 9)
  {
    var x := IntToString(DecadeStart(year));
    var y := IntToString(DecadeStart(year) + 9);
    NoSpaceInNumber(DecadeStart(year));
    SplitAtDash(x, y);
    ParseIntToString(DecadeStart(year));
    ParseIntToString(DecadeStart(year) + 9);
    x + (" - " + y)
  }

  /** `x - y` with no space in `x` splits back into `x` and `y` at its
      first space. */
  lemma SplitAtDash(x: string, y: string)
    requires forall k :: 0 <= k < |x| ==> x[k] != ' '
    ensures var r := x + (" - " + y);
      && FirstSpace(r) == |x| && r[..|x|] == x
      && r[|x|..|x| + 3] == " - " && r[|x| + 3..] == y
  {
    var rest := " - " + y;
    FirstSpaceAfter(x, rest);
    assert (x + rest)[..|x|] == x;
    assert (x + rest)[|x|..|x| + 3] == " - ";
    assert (x + rest)[|x| + 3..] == y;
  }

  lemma NoSpaceInNumber(i: int)
    ensures forall k :: 0 <= k < |IntToString(i)| ==> IntToString(i)[k] != ' '
  {
    if i < 0 {
      assert IntToString(i) == "-" + NatToString(-i);
    }
  }

  /** The position of the first space in `s`, or `|s|` when it has none. */
  function FirstSpace(s: string): (n: nat)
    ensures n <= |s|
  {
    if s == [] || s[0] == ' ' then 0 else 1 + FirstSpace(s[1..])
  }

  /** A text without spaces followed by one that starts with a space: the
      first space is where the second part starts. */
  lemma {:induction false} FirstSpaceAfter(x: string, rest: string)
    requires forall k :: 0 <= k < |x| ==> x[k] != ' '
    requires rest != [] && rest[0] == ' '
    ensures FirstSpace(x + rest) == |x|
  {
    if x == [] {
      assert x + rest == rest;
    } else {
      assert (x + rest)[1..] == x[1..] + rest;
      FirstSpaceAfter(x[1..], rest);
    }
  }

  /** Two years get the same decade label exactly when they lie in the same
      decade. */
  lemma DecadeLabelNamesDecade(a: int, b: int)
    ensures DecadeLabel(a) == DecadeLabel(b) <==> DecadeStart(a) == DecadeStart(b)
  {
    if DecadeStart(a) == DecadeStart(b) {
      assert DecadeLabel(a) == DecadeLabel(b);
    }
  }

  /** 2025 lies in the decade from 2020, and year -5 in the decade from -10. */
  lemma DecadeStartExamples()
    ensures DecadeStart(2025) == 2020 && DecadeStart(-5) == -10
  {
  }

  /** The double-arrow buttons show when a label for them is supplied or
      the view is not the month view. */
  predicate ShowsDoubleArrows(labelSupplied: bool, view: View)
    ensures labelSupplied || view != MonthView ==> ShowsDoubleArrows(labelSupplied, view)
    ensures !labelSupplied ==> (ShowsDoubleArrows(labelSupplied, view) <==> view != MonthView)
  {
    labelSupplied || view != MonthView
  }

  /** The four arrow buttons of the header. */
  datatype Arrow = PreviousButton | NextButton | Previous2Button | Next2Button

  /** The date an arrow button hands to the component's date-change handler:
      valid exactly when the anchor is, at the same time of day. */
  function ArrowTarget(arrow: Arrow, date: DateValue, view: View): (r: DateValue)
    ensures r.At? <==> date.At?
    ensures r.At? ==> r.time == date.time
  {
    match arrow
    case PreviousButton => Previous(date, view)
    case NextButton => Next(date, view)
    case Previous2Button => Previous2(date, view)
    case Next2Button => Next2(date, view)
  }

  /** Where the double arrows show, they step as the single arrows of the
      next coarser view: a year in the month view, a decade in the year
      view. */
  lemma DoubleArrowsStepAsCoarserView(date: DateValue)
    ensures Next2(date, MonthView) == Next(date, YearView) && Previous2(date, MonthView) == Previous(date, YearView)
    ensures Next2(date, YearView) == Next(date, DecadeView) && Previous2(date, YearView) == Previous(date, DecadeView)
  {
  }
}
