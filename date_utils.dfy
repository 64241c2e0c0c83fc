/** The date utilities of the calendar: the month grid, date validity and
    truncation, fixed-pattern formatting and ISO 8601 week numbers. */
module DateUtils {

  import opened Wrappers
  import opened Dates
  import opened Text

  /** One cell of the month grid. */
  datatype DayCell = DayCell(date: DateValue, isCurrentMonth: bool, isPreviousMonth: bool, isNextMonth: bool)

  /** Local midnight at the start of `d`, which is what `new Date(y, m, d)` gives. */
  function Midnight(d: Day): DateValue {
    At(d, 0)
  }

  predicate ExactlyOneTag(c: DayCell) {
    if c.isCurrentMonth then !c.isPreviousMonth && !c.isNextMonth
    else c.isPreviousMonth != c.isNextMonth
  }

  /** How many days of the previous month precede the 1st so that the grid
      starts on `weekStartDay`. */
  function LeadingCount(year: int, month: int, weekStartDay: int): int
    requires 0 <= month < 12
  {
    (Weekday(Date(year, month, 1)) - weekStartDay + 7) % 7
  }

  /** `Math.ceil(n / 7) * 7`. */
  function RoundUpToWeeks(n: int): (r: int)
    ensures r % 7 == 0 && n <= r < n + 7
  {
    var q := (n + 6) / 7;
    assert 7 * q <= n + 6 < 7 * q + 7;
    assert (q * 7) % 7 == 0 by { MultipleOfSeven(q); }
    q * 7
  }

  lemma MultipleOfSeven(q: int)
    ensures (q * 7) % 7 == 0
  {
  }

  /** Cell `k` of the grid of month `month` of `year` when `lead` days of the
      previous month come first: the last `lead` days of the previous month,
      then days 1.. of the month, then days 1.. of the next month. */
  function GridCell(year: int, month: int, lead: int, k: int): (c: DayCell)
    requires 0 <= month < 12 && 0 <= lead < 7
    requires 0 <= k < lead + DaysInMonth(year, month) + 28
    ensures ExactlyOneTag(c) && c.date.At? && c.date.time == 0
  {
    var n := DaysInMonth(year, month);
    if k < lead then
      var p := PreviousMonth(year, month);
      DayCell(Midnight(Date(p.year, p.month, DaysInMonth(p.year, p.month) - lead + 1 + k)), false, true, false)
    else if k < lead + n then
      DayCell(Midnight(Date(year, month, k - lead + 1)), true, false, false)
    else
      var q := NextMonth(year, month);
      DayCell(Midnight(Date(q.year, q.month, k - lead - n + 1)), false, false, true)
  }

  /** The first `count` cells of the grid. */
  function GridCells(year: int, month: int, lead: int, count: nat): (cells: seq<DayCell>)
    requires 0 <= month < 12 && 0 <= lead < 7
    requires count <= lead + DaysInMonth(year, month) + 28
    ensures |cells| == count
    ensures forall i :: 0 <= i < count ==> ExactlyOneTag(cells[i]) && cells[i].date.At? && cells[i].date.time == 0
  {
    if count == 0 then [] else GridCells(year, month, lead, count - 1) + [GridCell(year, month, lead, count - 1)]
  }

  /** Cell `k` of a grid prefix is the grid's cell `k`. */
  lemma {:induction false} GridCellsAt(year: int, month: int, lead: int, count: nat, k: int)
    requires 0 <= month < 12 && 0 <= lead < 7
    requires count <= lead + DaysInMonth(year, month) + 28
    requires 0 <= k < count
    ensures GridCells(year, month, lead, count)[k] == GridCell(year, month, lead, k)
  {
    if k < count - 1 {
      GridCellsAt(year, month, lead, count - 1, k);
    }
  }

  /** The whole grid: with neighbouring months shown, the leading days of the
      previous month, the month, and trailing days of the next month up to
      six weeks (fixed) or up to a multiple of seven cells that counts the
      leading days twice; without them, only the days of the month. */
  function MonthGrid(year: int, month: int, offset: int, fixed: bool, neighbours: bool): (g: seq<DayCell>)
    requires 0 <= month < 12 && 0 <= offset < 7
    ensures !neighbours ==> |g| == DaysInMonth(year, month)
    ensures neighbours ==> |g| % 7 == 0 && |g| >= offset + DaysInMonth(year, month)
    ensures neighbours && fixed ==> |g| == 42
    ensures forall i :: 0 <= i < |g| ==> ExactlyOneTag(g[i]) && g[i].date.At? && g[i].date.time == 0
  {
    var n := DaysInMonth(year, month);
    if !neighbours then GridCells(year, month, 0, n)
    else GridCells(year, month, offset, if fixed then 42 else RoundUpToWeeks(2 * offset + n))
  }

  lemma MonthGridCells(year: int, month: int, fixed: bool, neighbours: bool,
                       off: int, lead: int, monthCells: int, total: int)
    requires 0 <= month < 12 && 0 <= off < 7
    requires lead == if neighbours && off > 0 then off else 0
    requires monthCells == lead + DaysInMonth(year, month)
    requires total == if fixed then 42 else RoundUpToWeeks(monthCells + off)
    ensures neighbours ==> total - monthCells <= 28
    ensures MonthGrid(year, month, off, fixed, neighbours)
            == GridCells(year, month, lead, if neighbours && total - monthCells > 0 then total else monthCells)
  {
  }

  /** `getDaysInMonth`: the cells of the month grid for the month of `date`.
      Every day is built with `new Date(year, …)`, so a year 0..99 gives
      the grid of that month of 1900 + year. */
  method GetDaysInMonth(date: Day, weekStartDay: int, showFixedNumberOfWeeks: bool, showNeighboringMonth: bool)
    returns (days: seq<DayCell>)
    requires 0 <= weekStartDay <= 6
    ensures var y := FullYear(date.year);
      days == MonthGrid(y, date.month, LeadingCount(y, date.month, weekStartDay),
                        showFixedNumberOfWeeks, showNeighboringMonth)
  {
    var year := date.year;
    var month := date.month;
    var firstDay, lastDay, prevMonthLastDay := MonthBounds(year, month);
    var firstDayOfWeek := (Weekday(firstDay) - weekStartDay + 7) % 7;
    ghost var y := FullYear(year);
    assert firstDayOfWeek == LeadingCount(y, month, weekStartDay);

    days := [];
    if showNeighboringMonth && firstDayOfWeek > 0 {
      days := PreviousMonthDays(year, month, firstDayOfWeek, prevMonthLastDay.day);
    }
    ghost var lead := |days|;
    days := CurrentMonthDays(year, month, days, lastDay.day);
    ghost var monthCells := |days|;

    var totalCells := if showFixedNumberOfWeeks then 42 else RoundUpToWeeks(|days| + firstDayOfWeek);
    var remainingCells := totalCells - |days|;
    MonthGridCells(y, month, showFixedNumberOfWeeks, showNeighboringMonth, firstDayOfWeek, lead, monthCells, totalCells);
    if showNeighboringMonth && remainingCells > 0 {
      days := NextMonthDays(year, month, lead, days, remainingCells);
    }
    assert days == GridCells(y, month, lead,
                             if showNeighboringMonth && remainingCells > 0 then totalCells else monthCells);
    assert days == MonthGrid(y, month, firstDayOfWeek, showFixedNumberOfWeeks, showNeighboringMonth);
  }

  /** The first loop of `getDaysInMonth`: the last `lead` days of the
      previous month, whose last day is `prevMonthLastDate`, oldest first. */
  method PreviousMonthDays(year: int, month: int, lead: int, prevMonthLastDate: int) returns (days: seq<DayCell>)
    requires 0 <= month < 12 && 0 <= lead < 7
    requires var p := PreviousMonth(FullYear(year), month); prevMonthLastDate == DaysInMonth(p.year, p.month)
    ensures days == GridCells(FullYear(year), month, lead, lead)
  {
    days := [];
    var i := lead;
    while i > 0
      invariant 0 <= i <= lead
      invariant days == GridCells(FullYear(year), month, lead, lead - i)
    {
      var prevDate := NewDate(year, month - 1, prevMonthLastDate - i + 1);
      PreviousMonthCell(FullYear(year), month, lead, i, prevMonthLastDate);
      days := days + [DayCell(Midnight(prevDate), false, true, false)];
      i := i - 1;
    }
  }

  /** The second loop of `getDaysInMonth`: days 1 to `lastDate` of the month. */
  method CurrentMonthDays(year: int, month: int, prefix: seq<DayCell>, lastDate: int) returns (days: seq<DayCell>)
    requires 0 <= month < 12 && |prefix| < 7
    requires prefix == GridCells(FullYear(year), month, |prefix|, |prefix|)
    requires lastDate == DaysInMonth(FullYear(year), month)
    ensures days == GridCells(FullYear(year), month, |prefix|, |prefix| + lastDate)
  {
    days := prefix;
    var day := 1;
    while day <= lastDate
      invariant 1 <= day <= lastDate + 1
      invariant days == GridCells(FullYear(year), month, |prefix|, |prefix| + day - 1)
    {
      CurrentMonthCell(FullYear(year), month, |prefix|, day);
      days := days + [DayCell(Midnight(NewDate(year, month, day)), true, false, false)];
      day := day + 1;
    }
  }

  /** The third loop of `getDaysInMonth`: days 1 to `remainingCells` of the next month. */
  method NextMonthDays(year: int, month: int, ghost lead: int, prefix: seq<DayCell>, remainingCells: int)
    returns (days: seq<DayCell>)
    requires 0 <= month < 12 && 0 <= lead < 7 && 0 <= remainingCells <= 28
    requires |prefix| == lead + DaysInMonth(FullYear(year), month)
    requires prefix == GridCells(FullYear(year), month, lead, |prefix|)
    ensures days == GridCells(FullYear(year), month, lead, |prefix| + remainingCells)
  {
    days := prefix;
    var day := 1;
    while day <= remainingCells
      invariant 1 <= day <= remainingCells + 1
      invariant days == GridCells(FullYear(year), month, lead, |prefix| + day - 1)
    {
      NextMonthCell(FullYear(year), month, lead, day);
      days := days + [DayCell(Midnight(NewDate(year, month + 1, day)), false, false, true)];
      day := day + 1;
    }
  }

  /** The first and last day of month `month` of `year` and the last day of
      the month before, built as `new Date(year, month, 1)`,
      `new Date(year, month + 1, 0)` and `new Date(year, month, 0)`, all in
      the year `FullYear(year)`. */
  method MonthBounds(year: int, month: int) returns (firstDay: Day, lastDay: Day, prevMonthLastDay: Day)
    requires 0 <= month < 12
    ensures firstDay == Date(FullYear(year), month, 1)
    ensures lastDay == Date(FullYear(year), month, DaysInMonth(FullYear(year), month))
    ensures var p := PreviousMonth(FullYear(year), month);
      prevMonthLastDay == Date(p.year, p.month, DaysInMonth(p.year, p.month))
  {
    firstDay := NewDate(year, month, 1);
    lastDay := NewDate(year, month + 1, 0);
    prevMonthLastDay := NewDate(year, month, 0);
    MakeDateInMonth(FullYear(year), month, 1);
    MonthEnd(FullYear(year), month);
  }

  lemma PreviousMonthCell(year: int, month: int, lead: int, i: int, last: int)
    requires 0 <= month < 12 && 0 < i <= lead < 7
    requires last == DaysInMonth(PreviousMonth(year, month).year, PreviousMonth(year, month).month)
    ensures DayCell(Midnight(MakeDate(year, month - 1, last - i + 1)), false, true, false)
            == GridCell(year, month, lead, lead - i)
  {
    MakeDateInPreviousMonth(year, month, last - i + 1);
  }

  lemma CurrentMonthCell(year: int, month: int, lead: int, day: int)
    requires 0 <= month < 12 && 0 <= lead < 7 && 1 <= day <= DaysInMonth(year, month)
    ensures DayCell(Midnight(MakeDate(year, month, day)), true, false, false)
            == GridCell(year, month, lead, lead + day - 1)
  {
    MakeDateInMonth(year, month, day);
  }

  lemma NextMonthCell(year: int, month: int, lead: int, day: int)
    requires 0 <= month < 12 && 0 <= lead < 7 && 1 <= day <= 28
    ensures DayCell(Midnight(MakeDate(year, month + 1, day)), false, false, true)
            == GridCell(year, month, lead, lead + DaysInMonth(year, month) + day - 1)
  {
    MakeDateInNextMonth(year, month, day);
  }

  /** Consecutive cells hold consecutive days: cell `k` is `k - lead` days
      after the 1st of the month. */
  lemma GridCellDayNumber(year: int, month: int, lead: int, k: int)
    requires 0 <= month < 12 && 0 <= lead < 7
    requires 0 <= k < lead + DaysInMonth(year, month) + 28
    ensures DayNumber(GridCell(year, month, lead, k).date.day) == DayNumber(Date(year, month, 1)) - lead + k
  {
    if k < lead {
      PreviousMonthNumber(year, month);
    } else if k >= lead + DaysInMonth(year, month) {
      NextMonthNumber(year, month);
    }
  }

  /** A cell is a day of the displayed month exactly when it is tagged as one. */
  lemma GridCellMonth(year: int, month: int, lead: int, k: int)
    requires 0 <= month < 12 && 0 <= lead < 7
    requires 0 <= k < lead + DaysInMonth(year, month) + 28
    ensures var c := GridCell(year, month, lead, k);
      c.isCurrentMonth <==> (c.date.day.year == year && c.date.day.month == month)
  {
  }

  /** With neighbouring months shown, column `k % 7` of the grid is always
      weekday `(weekStartDay + k) % 7`: the grid starts on the week start. */
  lemma GridWeekday(year: int, month: int, weekStartDay: int, k: int)
    requires 0 <= month < 12 && 0 <= weekStartDay <= 6
    requires 0 <= k < LeadingCount(year, month, weekStartDay) + DaysInMonth(year, month) + 28
    ensures Weekday(GridCell(year, month, LeadingCount(year, month, weekStartDay), k).date.day)
         == (weekStartDay + k) % 7
  {
    GridCellDayNumber(year, month, LeadingCount(year, month, weekStartDay), k);
    ShiftedWeekday(DayNumber(Date(year, month, 1)), weekStartDay, k);
  }

  /** Going back from day `n` to the week start and on by `k` days lands on
      weekday `(weekStartDay + k) % 7`. */
  lemma ShiftedWeekday(n: int, weekStartDay: int, k: int)
    requires 0 <= weekStartDay <= 6
    ensures (n - (((n + 4) % 7 - weekStartDay + 7) % 7) + k + 4) % 7 == (weekStartDay + k) % 7
  {
    var x := n + 4;
    var w := x % 7;
    var off := (w - weekStartDay + 7) % 7;
    var t := if w >= weekStartDay then 0 else 1;
    assert off == w - weekStartDay + 7 * t;
    assert x - off + k == 7 * (x / 7 - t) + (weekStartDay + k);
    DivShift7(x / 7 - t, weekStartDay + k);
  }

  /** `Math.ceil(n / 7) * 7` is the least multiple of seven not below `n`. */
  lemma RoundUpToWeeksBounds(n: int)
    ensures RoundUpToWeeks(n) % 7 == 0
    ensures n <= RoundUpToWeeks(n) < n + 7
  {
  }

  /** With neighbouring months shown the grid holds whole weeks and every
      day of the month; it is six weeks long when fixed and at most seven
      weeks otherwise.  Without neighbours it is exactly the month. */
  lemma MonthGridLength(year: int, month: int, offset: int, fixed: bool, neighbours: bool)
    requires 0 <= month < 12 && 0 <= offset < 7
    ensures var len := |MonthGrid(year, month, offset, fixed, neighbours)|;
      && (neighbours ==> len % 7 == 0 && offset + DaysInMonth(year, month) <= len)
      && (neighbours && fixed ==> len == 42)
      && (neighbours && !fixed ==> len <= 49)
      && (!neighbours ==> len == DaysInMonth(year, month))
  {
    RoundUpToWeeksBounds(2 * offset + DaysInMonth(year, month));
  }

  /** Exactly the cells from the leading days on, one per day of the month,
      are tagged as the current month. */
  lemma MonthGridCurrentCells(year: int, month: int, offset: int, fixed: bool, neighbours: bool, k: int)
    requires 0 <= month < 12 && 0 <= offset < 7
    requires 0 <= k < |MonthGrid(year, month, offset, fixed, neighbours)|
    ensures var lead := if neighbours then offset else 0;
      MonthGrid(year, month, offset, fixed, neighbours)[k].isCurrentMonth
      <==> lead <= k < lead + DaysInMonth(year, month)
  {
    var lead := if neighbours then offset else 0;
    GridCellsAt(year, month, lead, |MonthGrid(year, month, offset, fixed, neighbours)|, k);
  }

  /** 1 March 2025 is a Saturday, so a Sunday-first grid leads with six days. */
  lemma March2025Offset()
    ensures LeadingCount(2025, 2, 0) == 6
  {
    var first: Day := Date(2025, 2, 1);
    assert DaysBeforeYear(2025) == 739617;
    assert DayNumber(first) == 20148;
  }

  /** The grid length counts the leading days twice, so a month whose
      leading days, counted twice, and days pass 42 gets a seventh row made
      only of next-month days. */
  lemma SeventhWeek(year: int, month: int, offset: int, k: int)
    requires 0 <= month < 12 && 0 <= offset < 7
    requires 2 * offset + DaysInMonth(year, month) > 42
    requires 42 <= k < 49
    ensures |MonthGrid(year, month, offset, false, true)| == 49
    ensures MonthGrid(year, month, offset, false, true)[k].isNextMonth
  {
    GridCellsAt(year, month, offset, 49, k);
  }

  /** With six leading days, the 31 days of March 2025 get a Sunday-first
      grid of 49 cells whose last row is April. */
  lemma SeventhWeekExample(k: int)
    requires 42 <= k < 49
    ensures |MonthGrid(2025, 2, LeadingCount(2025, 2, 0), false, true)| == 49
    ensures MonthGrid(2025, 2, LeadingCount(2025, 2, 0), false, true)[k].isNextMonth
  {
    March2025Offset();
    assert DaysInMonth(2025, 2) == 31;
    SeventhWeek(2025, 2, LeadingCount(2025, 2, 0), k);
  }

  /** `isValidDate`: a `Date` whose time value is a number. */
  predicate IsValidDate(date: DateValue) {
    date.At?
  }

  /** Every date the month grid builds is valid, and the invalid date is not. */
  lemma GridDatesAreValid(year: int, month: int, offset: int, fixed: bool, neighbours: bool, i: int)
    requires 0 <= month < 12 && 0 <= offset < 7
    requires 0 <= i < |MonthGrid(year, month, offset, fixed, neighbours)|
    ensures IsValidDate(MonthGrid(year, month, offset, fixed, neighbours)[i].date)
    ensures !IsValidDate(Invalid)
  {
  }

  /** `sanitizeDate`: a valid date truncated to its local midnight; anything
      else becomes the current time `now`. */
  method SanitizeDate(date: DateValue, now: DateValue) returns (sanitized: DateValue)
    requires now.At?
    ensures IsValidDate(date) ==> sanitized == At(date.day, 0)
    ensures !IsValidDate(date) ==> sanitized == now
    ensures sanitized.At?
  {
    if !IsValidDate(date) {
      return now;
    }
    sanitized := date;
    sanitized := sanitized.(time := 0);
  }

  /** `formatDate`: day, month (1..12) and year in one of four fixed
      patterns; any other pattern is written as mm/dd/yyyy.  Day and month
      are padded to two digits; the year is written as it is. */
  function FormatDate(date: DateValue, format: string): (s: string)
    ensures s == "" <==> !IsValidDate(date)
  {
    if !IsValidDate(date) then ""
    else
      var day := PadStart2(IntToString(date.day.day));
      var month := PadStart2(IntToString(date.day.month + 1));
      var year := IntToString(date.day.year);
      assert |year| >= 1;
      if format == "dd/mm/yyyy" then day + "/" + month + "/" + year
      else if format == "yyyy-mm-dd" then year + "-" + month + "-" + day
      else if format == "mm-dd-yyyy" then month + "-" + day + "-" + year
      else if format == "dd-mm-yyyy" then day + "-" + month + "-" + year
      else month + "/" + day + "/" + year
  }

  /** The order of the fields and the separator a date pattern stands for. */
  datatype Layout = DayMonthYear(sep: char) | MonthDayYear(sep: char) | YearMonthDay

  /** The layout of each pattern `formatDate` knows; mm/dd/yyyy for the rest. */
  function LayoutOf(format: string): Layout {
    match format
    case "dd/mm/yyyy" => DayMonthYear('/')
    case "dd-mm-yyyy" => DayMonthYear('-')
    case "mm-dd-yyyy" => MonthDayYear('-')
    case "yyyy-mm-dd" => YearMonthDay
    case _ => MonthDayYear('/')
  }

  function ParseTwoDigits(s: string): Option<int> {
    if |s| == 2 && AllDigits(s) then Some(ParseDigits(s)) else None
  }

  function Assemble(year: Option<int>, month: Option<int>, day: Option<int>): Option<Date> {
    if year.Some? && month.Some? && day.Some? then Some(Date(year.value, month.value - 1, day.value))
    else None
  }

  /** Reads a date written in `layout` back; None when the text does not fit. */
  function ParseDate(s: string, layout: Layout): Option<Date> {
    if |s| < 7 then None
    else match layout
      case YearMonthDay =>
        if s[|s| - 6] != '-' || s[|s| - 3] != '-' then None
        else Assemble(ParseInt(s[..|s| - 6]), ParseTwoDigits(s[|s| - 5..|s| - 3]), ParseTwoDigits(s[|s| - 2..]))
      case DayMonthYear(sep) =>
        if s[2] != sep || s[5] != sep then None
        else Assemble(ParseInt(s[6..]), ParseTwoDigits(s[3..5]), ParseTwoDigits(s[..2]))
      case MonthDayYear(sep) =>
        if s[2] != sep || s[5] != sep then None
        else Assemble(ParseInt(s[6..]), ParseTwoDigits(s[..2]), ParseTwoDigits(s[3..5]))
  }

  lemma FieldsFirst(a: string, b: string, c: string, sep: char)
    requires |a| == 2 && |b| == 2
    ensures var s := a + [sep] + b + [sep] + c;
      |s| == 6 + |c| && s[..2] == a && s[2] == sep && s[3..5] == b && s[5] == sep && s[6..] == c
  {
  }

  lemma YearFirst(c: string, a: string, b: string, sep: char)
    requires |a| == 2 && |b| == 2
    ensures var s := c + [sep] + a + [sep] + b;
      |s| == |c| + 6 && s[..|s| - 6] == c && s[|s| - 6] == sep && s[|s| - 5..|s| - 3] == a
      && s[|s| - 3] == sep && s[|s| - 2..] == b
  {
  }

  /** Whatever the pattern, the text of a valid date reads back, in the
      layout the pattern stands for, as that same day. */
  lemma FormatDateRoundTrip(date: DateValue, format: string)
    requires IsValidDate(date)
    ensures ParseDate(FormatDate(date, format), LayoutOf(format)) == Some(date.day)
  {
    var d := date.day;
    var day := PadStart2(IntToString(d.day));
    var month := PadStart2(IntToString(d.month + 1));
    var year := IntToString(d.year);
    PadStart2Number(d.day);
    PadStart2Number(d.month + 1);
    ParseIntToString(d.year);
    assert ParseTwoDigits(day) == Some(d.day);
    assert ParseTwoDigits(month) == Some(d.month + 1);
    var s := FormatDate(date, format);
    if format == "dd/mm/yyyy" {
      FieldsFirst(day, month, year, '/');
      assert s == day + ['/'] + month + ['/'] + year;
    } else if format == "yyyy-mm-dd" {
      YearFirst(year, month, day, '-');
      assert s == year + ['-'] + month + ['-'] + day;
    } else if format == "mm-dd-yyyy" {
      FieldsFirst(month, day, year, '-');
      assert s == month + ['-'] + day + ['-'] + year;
    } else if format == "dd-mm-yyyy" {
      FieldsFirst(day, month, year, '-');
      assert s == day + ['-'] + month + ['-'] + year;
    } else {
      FieldsFirst(month, day, year, '/');
      assert s == month + ['/'] + day + ['/'] + year;
    }
  }

  /** 5 March 2025 in the day-first pattern. */
  lemma FormatDayFirstExample()
    ensures FormatDate(At(Date(2025, 2, 5), 0), "dd/mm/yyyy") == "05/03/2025"
  {
    FormatExampleFields();
  }

  /** 5 March 2025 in the year-first pattern. */
  lemma FormatYearFirstExample()
    ensures FormatDate(At(Date(2025, 2, 5), 0), "yyyy-mm-dd") == "2025-03-05"
  {
    FormatExampleFields();
  }

  /** An unknown pattern is written as mm/dd/yyyy. */
  lemma FormatUnknownPatternExample()
    ensures FormatDate(At(Date(2025, 2, 5), 0), "d.m.y") == "03/05/2025"
  {
    FormatExampleFields();
  }

  lemma FormatExampleFields()
    ensures IntToString(2025) == "2025"
    ensures PadStart2(IntToString(5)) == "05"
    ensures PadStart2(IntToString(3)) == "03"
  {
    assert NatToString(2) == "2";
    assert NatToString(20) == "20";
    assert NatToString(202) == "202";
  }

  /** ISO 8601 weekday, 1 = Monday .. 7 = Sunday (`getUTCDay() || 7`). */
  function IsoWeekday(d: Day): (w: int)
    ensures 1 <= w <= 7
    ensures w % 7 == Weekday(d)
  {
    var k := Weekday(d);
    if k == 0 then 7 else k
  }

  /** The Thursday of the Monday-to-Sunday week that holds `d`. */
  function WeekThursday(d: Day): Day {
    AddDays(d, 4 - IsoWeekday(d))
  }

  /** The Monday that starts the week holding `d`. */
  function WeekMonday(d: Day): Day {
    AddDays(d, 1 - IsoWeekday(d))
  }

  /** ISO 8601 week-numbering year of `d`: the year its week's Thursday is in. */
  function IsoWeekYear(d: Day): int {
    WeekThursday(d).year
  }

  /** ISO 8601 week number of `d`: week 1 of a year is the week that holds
      4 January, and weeks run Monday to Sunday. */
  function IsoWeek(d: Day): int {
    var jan4: Day := Date(IsoWeekYear(d), 0, 4);
    (DayNumber(WeekMonday(d)) - DayNumber(WeekMonday(jan4))) / 7 + 1
  }

  /** The number of the week holding `d` when week 1 starts on 1 January
      of `year`. */
  function WeekCountedFrom(d: Day, year: int): int {
    var start: Day := Date(year, 0, 1);
    (DayNumber(d) - DayNumber(start)) / 7 + 1
  }

  /** `Date.UTC(date.getFullYear(), date.getMonth(), date.getDate())`: the
      day `getWeekNumber` numbers, which for a year 0..99 lies in 1900 + year. */
  function UtcDay(date: Day): Day {
    NewDate(date.year, date.month, date.day)
  }

  /** Outside the years 0..99 the day numbered is `date` itself. */
  lemma UtcDayOfFourDigitYear(date: Day)
    requires !(0 <= date.year <= 99)
    ensures UtcDay(date) == date
  {
    MakeDateInMonth(date.year, date.month, date.day);
  }

  /** `getWeekNumber`: the ISO 8601 week number of the day `Date.UTC` makes
      of `date`. When that week's Thursday lies in a year 0..99 (the last
      days of year -1, the first days of year 100), `Date.UTC` moves the
      1st of January the count starts from to 1900 + that year. */
  method GetWeekNumber(date: Day) returns (week: int)
    ensures var th := WeekThursday(UtcDay(date));
      if 0 <= th.year <= 99 then week == WeekCountedFrom(th, 1900 + th.year)
      else week == IsoWeek(UtcDay(date)) && 1 <= week <= 53
  {
    week := WeekOfUtcDay(UtcDay(date));
  }

  /** The steps of `getWeekNumber` after `Date.UTC`: move to the Thursday
      of the week and count weeks from 1 January of its year, read again by
      `Date.UTC`. */
  method WeekOfUtcDay(utc: Day) returns (week: int)
    ensures var th := WeekThursday(utc);
      if 0 <= th.year <= 99 then week == WeekCountedFrom(th, 1900 + th.year)
      else week == IsoWeek(utc) && 1 <= week <= 53
  {
    var dayNum := if Weekday(utc) == 0 then 7 else Weekday(utc);
    var d := SetDate(utc, 4 - dayNum);
    ThursdayOfDayNum(utc, dayNum, d);
    var yearStart := FirstOfMonth(d.year, 0);
    week := (DayNumber(d) - DayNumber(yearStart) + 1 + 6) / 7;
    WeekNumberAsWritten(utc, d, yearStart, week);
  }

  lemma WeekNumberAsWritten(utc: Day, th: Day, yearStart: Day, week: int)
    requires th == WeekThursday(utc) && yearStart == Date(FullYear(th.year), 0, 1)
    requires week == (DayNumber(th) - DayNumber(yearStart) + 1 + 6) / 7
    ensures if 0 <= th.year <= 99 then week == WeekCountedFrom(th, 1900 + th.year)
            else week == IsoWeek(utc) && 1 <= week <= 53
  {
    if 0 <= th.year <= 99 {
      WeekFromYearStart(th, yearStart, week);
    } else {
      WeekNumberOfThursday(utc, th, yearStart, week);
    }
  }

  lemma ThursdayOfDayNum(d: Day, dayNum: int, th: Day)
    requires dayNum == (if Weekday(d) == 0 then 7 else Weekday(d))
    requires th == AddDays(d, 4 - dayNum)
    ensures th == WeekThursday(d)
  {
  }

  lemma WeekFromYearStart(th: Day, yearStart: Day, week: int)
    requires 0 <= th.year <= 99 && yearStart == Date(FullYear(th.year), 0, 1)
    requires week == (DayNumber(th) - DayNumber(yearStart) + 1 + 6) / 7
    ensures week == WeekCountedFrom(th, 1900 + th.year)
  {
    AddOneWeek(DayNumber(th) - DayNumber(yearStart));
  }

  lemma AddOneWeek(x: int)
    ensures (x + 1 + 6) / 7 == x / 7 + 1
  {
  }

  lemma WeekNumberOfThursday(date: Day, th: Day, yearStart: Day, week: int)
    requires th == WeekThursday(date) && yearStart == Date(th.year, 0, 1)
    requires week == (DayNumber(th) - DayNumber(yearStart) + 1 + 6) / 7
    ensures week == IsoWeek(date) && 1 <= week <= 53
  {
    IsoWeekOfThursday(date);
    var ord := DayNumber(th) - DayNumber(yearStart);
    DivUnique(ord + 7, ord / 7 + 1, ord % 7);
  }

  /** The week number is one more than the number of whole weeks from
      1 January of the Thursday's year to the Thursday of the week. */
  lemma IsoWeekOfThursday(d: Day)
    ensures var th := WeekThursday(d);
      var ord := DayNumber(th) - DayNumber(Date(th.year, 0, 1));
      && 0 <= ord < YearLength(th.year)
      && IsoWeek(d) == ord / 7 + 1
  {
    var th := WeekThursday(d);
    var jan1: Day := Date(th.year, 0, 1);
    var th1 := WeekThursday(Date(th.year, 0, 4));
    IsoWeekByThursdays(d);
    FirstThursday(th.year);
    ThursdayOfWeek(d);
    DayNumberInYear(th);
    WholeWeeks(DayNumber(th), DayNumber(th1), DayNumber(jan1));
  }

  /** The week number counts the weeks between the week's Thursday and the
      Thursday of the week holding 4 January. */
  lemma IsoWeekByThursdays(d: Day)
    ensures IsoWeek(d)
         == (DayNumber(WeekThursday(d)) - DayNumber(WeekThursday(Date(IsoWeekYear(d), 0, 4)))) / 7 + 1
  {
    ThursdayOfWeek(d);
    ThursdayOfWeek(Date(IsoWeekYear(d), 0, 4));
  }

  /** The Thursday of the week holding 4 January falls on 1..7 January. */
  lemma FirstThursday(y: int)
    ensures var th1 := WeekThursday(Date(y, 0, 4));
      0 <= DayNumber(th1) - DayNumber(Date(y, 0, 1)) < 7 && Weekday(th1) == 4
  {
    ThursdayOfWeek(Date(y, 0, 4));
  }

  /** Between two Thursdays lie whole weeks, so counting from the earlier
      Thursday or from up to six days before it gives the same week count. */
  lemma WholeWeeks(x: int, y: int, z: int)
    requires (x + 4) % 7 == 4 && (y + 4) % 7 == 4 && 0 <= y - z < 7
    ensures (x - y) / 7 == (x - z) / 7
  {
    SameWeekdayDifference(x, y);
    DivUnique(x - z, (x - y) / 7, y - z);
  }

  /** A week's Thursday is a Thursday three days after its Monday, and no
      more than three days from any of its days. */
  lemma ThursdayOfWeek(d: Day)
    ensures Weekday(WeekThursday(d)) == 4
    ensures DayNumber(WeekMonday(d)) == DayNumber(WeekThursday(d)) - 3
    ensures DayNumber(d) - 3 <= DayNumber(WeekThursday(d)) <= DayNumber(d) + 3
  {
    var w := IsoWeekday(d);
    DayNumberOfAddDays(d, 4 - w);
    DayNumberOfAddDays(d, 1 - w);
    WeekdayOfAddDays(d, 4 - w);
    assert (Weekday(d) + 4 - w) % 7 == 4 by {
      if w == 7 {
        assert Weekday(d) + 4 - w == -3;
      } else {
        assert Weekday(d) + 4 - w == 4;
      }
    }
  }

  lemma SameWeekdayDifference(x: int, y: int)
    requires (x + 4) % 7 == 4 && (y + 4) % 7 == 4
    ensures (x - y) % 7 == 0 && (x - y) == 7 * ((x - y) / 7)
  {
    var p, q := (x + 4) / 7, (y + 4) / 7;
    assert x - y == 7 * (p - q);
    DivShift7(p - q, 0);
  }

  lemma DivUnique(a: int, k: int, r: int)
    requires a == 7 * k + r && 0 <= r < 7
    ensures a / 7 == k
  {
  }

  /** All seven days of a week share its week number and week-numbering year. */
  lemma IsoWeekSameWeek(monday: Day, i: int)
    requires IsoWeekday(monday) == 1 && 0 <= i < 7
    ensures IsoWeek(AddDays(monday, i)) == IsoWeek(monday)
    ensures IsoWeekYear(AddDays(monday, i)) == IsoWeekYear(monday)
  {
    var d := AddDays(monday, i);
    DayNumberOfAddDays(monday, i);
    WeekdayOfAddDays(monday, i);
    assert IsoWeekday(d) == i + 1;
    assert WeekThursday(d) == AddDays(d, 3 - i);
    assert WeekMonday(d) == AddDays(d, -i);
    DayNumberOfAddDays(d, 3 - i);
    DayNumberOfAddDays(d, -i);
    DayNumberOfAddDays(monday, 3);
    DayNumberOfAddDays(monday, 0);
    DayNumberInjective(WeekThursday(d), WeekThursday(monday));
    DayNumberInjective(WeekMonday(d), WeekMonday(monday));
  }

  lemma AddDaysTo(d: Day, n: int, e: Day)
    requires DayNumber(e) == DayNumber(d) + n
    ensures AddDays(d, n) == e
  {
    DayNumberOfAddDays(d, n);
    DayNumberInjective(AddDays(d, n), e);
  }

  /** Monday 1 January 2024 starts week 1 of 2024. */
  lemma IsoWeekExampleNewYear()
    ensures IsoWeek(Date(2024, 0, 1)) == 1 && IsoWeekYear(Date(2024, 0, 1)) == 2024
  {
    var d: Day := Date(2024, 0, 1);
    assert DayNumber(d) == 19723;
    assert IsoWeekday(d) == 1;
    AddDaysTo(d, 3, Date(2024, 0, 4));
    assert WeekThursday(d) == Date(2024, 0, 4);
    IsoWeekOfThursday(d);
  }

  /** Monday 29 December 2025 is in week 1 of 2026. */
  lemma IsoWeekExampleLateDecember()
    ensures IsoWeek(Date(2025, 11, 29)) == 1 && IsoWeekYear(Date(2025, 11, 29)) == 2026
  {
    var d: Day := Date(2025, 11, 29);
    assert DayNumber(d) == 20451;
    assert IsoWeekday(d) == 1;
    AddDaysTo(d, 3, Date(2026, 0, 1));
    assert WeekThursday(d) == Date(2026, 0, 1);
    IsoWeekOfThursday(d);
  }

  /** Sunday 3 January 2021 is in week 53 of 2020. */
  lemma IsoWeekExampleWeek53()
    ensures IsoWeek(Date(2021, 0, 3)) == 53 && IsoWeekYear(Date(2021, 0, 3)) == 2020
  {
    var d: Day := Date(2021, 0, 3);
    assert DayNumber(d) == 18630;
    assert IsoWeekday(d) == 7;
    AddDaysTo(d, -3, Date(2020, 11, 31));
    assert WeekThursday(d) == Date(2020, 11, 31);
    IsoWeekOfThursday(d);
  }
}
