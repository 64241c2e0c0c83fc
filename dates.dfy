/** Proleptic Gregorian calendar arithmetic on whole days, the way a
    JavaScript `Date` object does it in local time.  Months are numbered
    0..11 as `getMonth` numbers them; weekdays 0..6 from Sunday as `getDay`. */
module Dates {

  const MsPerDay: int := 86400000
  /** Days from 1 January of year 0 to 1 January 1970. */
  const EpochOffset: int := 719528
  /** Days in one 400-year cycle of the Gregorian calendar. */
  const DaysPer400Years: int := 146097

  predicate IsLeapYear(y: int) {
    y % 4 == 0 && (y % 100 != 0 || y % 400 == 0)
  }

  function YearLength(y: int): int {
    if IsLeapYear(y) then 366 else 365
  }

  /** Days in month `m` of year `y`. */
  function DaysInMonth(y: int, m: int): (n: int)
    requires 0 <= m < 12
    ensures 28 <= n <= 31
    ensures n == 29 <==> m == 1 && IsLeapYear(y)
  {
    if m == 1 then (if IsLeapYear(y) then 29 else 28)
    else if m == 3 || m == 5 || m == 8 || m == 10 then 30
    else 31
  }

  /** A calendar day as (year, month 0..11, day of month); not necessarily valid. */
  datatype Date = Date(year: int, month: int, day: int)

  predicate IsValid(d: Date) {
    0 <= d.month < 12 && 1 <= d.day <= DaysInMonth(d.year, d.month)
  }

  /** A valid calendar day. */
  type Day = d: Date | IsValid(d) witness Date(1970, 0, 1)

  /** Milliseconds since local midnight. */
  type TimeOfDay = t: int | 0 <= t < MsPerDay

  /** A JavaScript `Date` object: either an invalid date (NaN time value)
      or a day together with a time of day. */
  datatype DateValue = Invalid | At(day: Day, time: TimeOfDay)

  /** Days from 1 January of year 0 to 1 January of year `y` (negative before year 0). */
  function DaysBeforeYear(y: int): int {
    365 * y + (y + 3) / 4 - (y + 99) / 100 + (y + 399) / 400
  }

  /** Days from 1 January of year `y` to the first day of month `m` (12 = the next year). */
  function DaysBeforeMonth(y: int, m: int): int
    requires 0 <= m <= 12
  {
    var common := [0, 31, 59, 90, 120, 151, 181, 212, 243, 273, 304, 334, 365][m];
    if IsLeapYear(y) && m >= 2 then common + 1 else common
  }

  /** Days from 1 January 1970 to `d`. */
  function DayNumber(d: Day): int {
    DaysBeforeYear(d.year) + DaysBeforeMonth(d.year, d.month) + d.day - 1 - EpochOffset
  }

  /** Day of the week, 0 = Sunday (1 January 1970 was a Thursday). */
  function Weekday(d: Day): (w: int)
    ensures 0 <= w < 7
  {
    (DayNumber(d) + 4) % 7
  }

  lemma YearStep(y: int)
    ensures DaysBeforeYear(y + 1) == DaysBeforeYear(y) + YearLength(y)
  {
    StepDiv4(y);
    StepDiv100(y);
    StepDiv400(y);
    LeapCount(y);
  }

  /** A year has 365 days, plus one if divisible by 4, minus one if by 100,
      plus one if by 400. */
  lemma LeapCount(y: int)
    ensures YearLength(y) == 365 + (if y % 4 == 0 then 1 else 0)
                                 - (if y % 100 == 0 then 1 else 0)
                                 + (if y % 400 == 0 then 1 else 0)
  {
    if y % 400 == 0 {
      DivShift100(4 * (y / 400), 0);
    }
    if y % 100 == 0 {
      DivShift4(25 * (y / 100), 0);
    }
  }

  lemma StepDiv4(y: int)
    ensures (y + 4) / 4 == (y + 3) / 4 + (if y % 4 == 0 then 1 else 0)
  {
    var a, b := y / 4, y % 4;
    DivShift4(a, b + 4);
    DivShift4(a, b + 3);
  }

  lemma StepDiv100(y: int)
    ensures (y + 100) / 100 == (y + 99) / 100 + (if y % 100 == 0 then 1 else 0)
  {
    var a, b := y / 100, y % 100;
    DivShift100(a, b + 100);
    DivShift100(a, b + 99);
  }

  lemma StepDiv400(y: int)
    ensures (y + 400) / 400 == (y + 399) / 400 + (if y % 400 == 0 then 1 else 0)
  {
    var a, b := y / 400, y % 400;
    DivShift400(a, b + 400);
    DivShift400(a, b + 399);
  }

  lemma MonthStep(y: int, m: int)
    requires 0 <= m < 12
    ensures DaysBeforeMonth(y, m + 1) == DaysBeforeMonth(y, m) + DaysInMonth(y, m)
    ensures DaysBeforeMonth(y, 12) == YearLength(y)
  {
  }

  lemma CycleShift(q: int, k: int)
    ensures DaysBeforeYear(400 * q + k) == DaysPer400Years * q + DaysBeforeYear(k)
    ensures YearLength(400 * q + k) == YearLength(k)
  {
    DivShift4(100 * q, k + 3);
    DivShift100(4 * q, k + 99);
    DivShift400(q, k + 399);
    DivShift4(100 * q, k);
    DivShift100(4 * q, k);
    DivShift400(q, k);
  }

  lemma DivShift4(m: int, x: int)
    ensures (4 * m + x) / 4 == m + x / 4 && (4 * m + x) % 4 == x % 4
  {
  }

  lemma DivShift100(m: int, x: int)
    ensures (100 * m + x) / 100 == m + x / 100 && (100 * m + x) % 100 == x % 100
  {
  }

  lemma DivShift400(m: int, x: int)
    ensures (400 * m + x) / 400 == m + x / 400 && (400 * m + x) % 400 == x % 400
  {
  }

  /** Later years start later: year `a` ends no later than year `b` starts. */
  lemma DaysBeforeYearMonotone(a: int, b: int)
    requires a < b
    ensures DaysBeforeYear(a + 1) <= DaysBeforeYear(b)
  {
    var c := b - (a + 1);
    assert (b + 3) / 4 >= (a + 4) / 4;
    assert (b + 99) / 100 <= (a + 100) / 100 + c / 100 + 1;
    assert (b + 399) / 400 >= (a + 400) / 400;
  }

  /** The year of a 400-year cycle in which day `r` of the cycle falls. */
  function YearInCycle(r: int, k: int): (res: int)
    requires 0 <= k && DaysBeforeYear(k) <= r < DaysPer400Years
    ensures k <= res < 400
    ensures DaysBeforeYear(res) <= r < DaysBeforeYear(res + 1)
    decreases 400 - k
  {
    assert k < 400 by {
      if k >= 400 {
        if k > 400 { DaysBeforeYearMonotone(400, k); YearStep(400); }
        assert false;
      }
    }
    YearStep(k);
    if r < DaysBeforeYear(k + 1) then k else YearInCycle(r, k + 1)
  }

  /** The month of year `y` in which day `doy` of the year falls. */
  function MonthOfDay(y: int, doy: int, m: int): (res: int)
    requires 0 <= m < 12 && DaysBeforeMonth(y, m) <= doy < YearLength(y)
    ensures m <= res < 12
    ensures DaysBeforeMonth(y, res) <= doy < DaysBeforeMonth(y, res + 1)
    decreases 12 - m
  {
    MonthStep(y, m);
    if doy < DaysBeforeMonth(y, m + 1) then m else MonthOfDay(y, doy, m + 1)
  }

  /** The day `n` days after 1 January 1970: the one day with that number. */
  function FromDayNumber(n: int): (d: Day)
    ensures DayNumber(d) == n
  {
    DayNumberOnto(n);
    DayNumberUnique(n);
    var d: Day :| DayNumber(d) == n;
    d
  }

  /** Every integer numbers some day: find its year within a 400-year
      cycle, then its month within that year. */
  lemma DayNumberOnto(n: int)
    ensures exists d: Day :: DayNumber(d) == n
  {
    var z := n + EpochOffset;
    var k := YearInCycle(z % DaysPer400Years, 0);
    var y := 400 * (z / DaysPer400Years) + k;
    YearOfDayNumber(z, k);
    MonthStep(y, 0);
    var m := MonthOfDay(y, z - DaysBeforeYear(y), 0);
    MonthStep(y, m);
    var d: Day := Date(y, m, z - DaysBeforeYear(y) - DaysBeforeMonth(y, m) + 1);
    assert DayNumber(d) == n;
  }

  /** Day `z` (counted from year 0) falls in year 400 * (z / 146097) + k when
      k is the year of the cycle that holds z % 146097. */
  lemma YearOfDayNumber(z: int, k: int)
    requires 0 <= k < 400
    requires DaysBeforeYear(k) <= z % DaysPer400Years < DaysBeforeYear(k + 1)
    ensures DaysBeforeYear(400 * (z / DaysPer400Years) + k) <= z
    ensures z < DaysBeforeYear(400 * (z / DaysPer400Years) + k) + YearLength(400 * (z / DaysPer400Years) + k)
  {
    var q := z / DaysPer400Years;
    CycleShift(q, k);
    YearStep(k);
  }

  /** The days of a year occupy days DaysBeforeYear(y) .. DaysBeforeYear(y + 1) - 1. */
  lemma DayNumberInYear(d: Day)
    ensures DaysBeforeYear(d.year) <= DayNumber(d) + EpochOffset < DaysBeforeYear(d.year + 1)
  {
    MonthStep(d.year, d.month);
    YearStep(d.year);
    MonthMonotone(d.year, d.month + 1, 12);
  }

  lemma MonthMonotone(y: int, a: int, b: int)
    requires 0 <= a <= b <= 12
    ensures DaysBeforeMonth(y, a) <= DaysBeforeMonth(y, b)
  {
  }

  /** Distinct days have distinct day numbers. */
  lemma {:induction false} DayNumberInjective(a: Day, b: Day)
    requires DayNumber(a) == DayNumber(b)
    ensures a == b
  {
    DayNumberInYear(a);
    DayNumberInYear(b);
    if a.year < b.year {
      DaysBeforeYearMonotone(a.year, b.year);
    } else if b.year < a.year {
      DaysBeforeYearMonotone(b.year, a.year);
    }
    assert a.year == b.year;
    MonthStep(a.year, a.month);
    MonthStep(b.year, b.month);
    if a.month < b.month {
      MonthMonotone(a.year, a.month + 1, b.month);
    } else if b.month < a.month {
      MonthMonotone(a.year, b.month + 1, a.month);
    }
  }

  /** `a` comes before `b` on the calendar: an earlier year, or the same
      year and an earlier month, or the same month and an earlier day. */
  predicate EarlierDay(a: Day, b: Day) {
    a.year < b.year
    || (a.year == b.year && (a.month < b.month || (a.month == b.month && a.day < b.day)))
  }

  /** Day numbers order days the way the calendar does. */
  lemma DayNumberOrder(a: Day, b: Day)
    ensures DayNumber(a) < DayNumber(b) <==> EarlierDay(a, b)
  {
    if EarlierDay(a, b) {
      EarlierDayNumber(a, b);
    } else if a != b {
      EarlierDayNumber(b, a);
    }
  }

  lemma EarlierDayNumber(a: Day, b: Day)
    requires EarlierDay(a, b)
    ensures DayNumber(a) < DayNumber(b)
  {
    DayNumberInYear(a);
    DayNumberInYear(b);
    if a.year < b.year {
      DaysBeforeYearMonotone(a.year, b.year);
    } else if a.month < b.month {
      MonthStep(a.year, a.month);
      MonthMonotone(a.year, a.month + 1, b.month);
    }
  }

  lemma DayNumberUnique(n: int)
    ensures forall a: Day, b: Day :: DayNumber(a) == n && DayNumber(b) == n ==> a == b
  {
    forall a: Day, b: Day | DayNumber(a) == n && DayNumber(b) == n
      ensures a == b
    {
      DayNumberInjective(a, b);
    }
  }

  /** Numbering days and converting back gives the same day. */
  lemma FromDayNumberOfDayNumber(d: Day)
    ensures FromDayNumber(DayNumber(d)) == d
  {
    DayNumberInjective(FromDayNumber(DayNumber(d)), d);
  }

  /** The first day of month `m` of year `y`, where a month outside 0..11
      carries into the year. */
  function MonthStart(y: int, m: int): Day {
    Date(y + m / 12, m % 12, 1)
  }

  /** Year `y`, month `m`, day `d` with month and day outside their ranges
      rolled over into the neighbouring months and years, as
      `setFullYear`, `setMonth` and `setDate` do. */
  function MakeDate(y: int, m: int, d: int): Day {
    FromDayNumber(DayNumber(MonthStart(y, m)) + d - 1)
  }

  /** The year `new Date(y, m, d)` and `Date.UTC(y, m, d)` take for the
      argument `y`: a year 0..99 stands for 1900 + y. */
  function FullYear(y: int): int {
    if 0 <= y <= 99 then 1900 + y else y
  }

  /** `new Date(y, m, d)` (and `Date.UTC(y, m, d)`): the year argument is
      read by `FullYear` first, then month and day roll over as in `MakeDate`. */
  function NewDate(y: int, m: int, d: int): Day {
    MakeDate(FullYear(y), m, d)
  }

  /** The day `n` days after `d` (`n` may be negative). */
  function AddDays(d: Day, n: int): Day {
    FromDayNumber(DayNumber(d) + n)
  }

  lemma {:induction false} DayNumberOfAddDays(d: Day, n: int)
    ensures DayNumber(AddDays(d, n)) == DayNumber(d) + n
  {
  }

  /** Adding days moves the weekday along cyclically. */
  lemma WeekdayOfAddDays(d: Day, n: int)
    ensures Weekday(AddDays(d, n)) == (Weekday(d) + n) % 7
  {
    var x := DayNumber(d) + 4;
    assert (x + n) % 7 == (x % 7 + n) % 7 by {
      assert x + n == 7 * (x / 7) + (x % 7 + n);
      DivShift7(x / 7, x % 7 + n);
    }
  }

  lemma DivShift7(m: int, x: int)
    ensures (7 * m + x) % 7 == x % 7
  {
  }

  /** A date inside the month it names is its own normalisation. */
  lemma {:induction false} MakeDateInRange(y: int, m: int, d: int)
    requires 1 <= d <= DaysInMonth(y + m / 12, m % 12)
    ensures MakeDate(y, m, d) == Date(y + m / 12, m % 12, d)
  {
    var t: Day := Date(y + m / 12, m % 12, d);
    MakeDateByNumber(y, m, d, DayNumber(t));
    FromDayNumberOfDayNumber(t);
  }

  /** The first day of a month follows the last day of the month before. */
  lemma MonthStartStep(y: int, m: int)
    ensures DayNumber(MonthStart(y, m + 1))
         == DayNumber(MonthStart(y, m)) + DaysInMonth(y + m / 12, m % 12)
  {
    var yy, mm := y + m / 12, m % 12;
    MonthStep(yy, mm);
    if mm == 11 {
      assert (m + 1) / 12 == m / 12 + 1 && (m + 1) % 12 == 0;
      YearStep(yy);
    } else {
      assert (m + 1) / 12 == m / 12 && (m + 1) % 12 == mm + 1;
    }
  }

  /** `MakeDate` depends only on the day number it lands on. */
  lemma MakeDateByNumber(y: int, m: int, d: int, n: int)
    requires DayNumber(MonthStart(y, m)) + d - 1 == n
    ensures MakeDate(y, m, d) == FromDayNumber(n)
  {
  }

  /** A day of the month past its end carries into the next month. */
  lemma {:induction false} MakeDateCarry(y: int, m: int, d: int)
    ensures MakeDate(y, m, d) == MakeDate(y, m + 1, d - DaysInMonth(y + m / 12, m % 12))
  {
    var x := DayNumber(MonthStart(y, m)) + d - 1;
    var d' := d - DaysInMonth(y + m / 12, m % 12);
    assert DayNumber(MonthStart(y, m + 1)) + d' - 1 == x by { MonthStartStep(y, m); }
    MakeDateByNumber(y, m, d, x);
    MakeDateByNumber(y, m + 1, d', x);
  }

  /** Day 0 of month `m` is the last day of the month before it. */
  lemma {:induction false} MakeDateZero(y: int, m: int)
    ensures MakeDate(y, m, 0)
         == Date(y + (m - 1) / 12, (m - 1) % 12, DaysInMonth(y + (m - 1) / 12, (m - 1) % 12))
  {
    var n := DaysInMonth(y + (m - 1) / 12, (m - 1) % 12);
    PreviousMonthEnd(y, m);
    MakeDateSame(y, m, 0, y, m - 1, n);
    MakeDateInRange(y, m - 1, n);
  }

  lemma MakeDateSame(y: int, m: int, d: int, y': int, m': int, d': int)
    requires DayNumber(MonthStart(y, m)) + d == DayNumber(MonthStart(y', m')) + d'
    ensures MakeDate(y, m, d) == MakeDate(y', m', d')
  {
  }

  lemma PreviousMonthEnd(y: int, m: int)
    ensures DayNumber(MonthStart(y, m)) + 0
         == DayNumber(MonthStart(y, m - 1)) + DaysInMonth(y + (m - 1) / 12, (m - 1) % 12)
  {
    MonthStartStep(y, m - 1);
    assert m - 1 + 1 == m;
  }

  lemma MonthStartOfDay(d: Day)
    ensures DayNumber(MonthStart(d.year, d.month)) + d.day - 1 == DayNumber(d)
  {
    assert d.month / 12 == 0 && d.month % 12 == d.month;
  }

  /** `setDate(getDate() + n)` on a valid day moves it by exactly `n` days. */
  lemma {:induction false} MakeDateShift(d: Day, n: int)
    ensures MakeDate(d.year, d.month, d.day + n) == AddDays(d, n)
  {
    var x := DayNumber(d) + n;
    assert DayNumber(MonthStart(d.year, d.month)) + (d.day + n) - 1 == x by { MonthStartOfDay(d); }
    MakeDateByNumber(d.year, d.month, d.day + n, x);
    AddDaysByNumber(d, n);
  }

  lemma AddDaysByNumber(d: Day, n: int)
    ensures AddDays(d, n) == FromDayNumber(DayNumber(d) + n)
  {
  }

  /** The first day of the month before month `m` (0..11) of year `y`. */
  function PreviousMonth(y: int, m: int): Day
    requires 0 <= m < 12
  {
    if m == 0 then Date(y - 1, 11, 1) else Date(y, m - 1, 1)
  }

  /** The first day of the month after month `m` (0..11) of year `y`. */
  function NextMonth(y: int, m: int): Day
    requires 0 <= m < 12
  {
    if m == 11 then Date(y + 1, 0, 1) else Date(y, m + 1, 1)
  }

  lemma MakeDateInMonth(y: int, m: int, d: int)
    requires 0 <= m < 12 && 1 <= d <= DaysInMonth(y, m)
    ensures MakeDate(y, m, d) == Date(y, m, d)
  {
    assert m / 12 == 0 && m % 12 == m;
    MakeDateInRange(y, m, d);
  }

  /** Month `m - 1` with a day `d` of the previous month: no rollover
      beyond the month arithmetic (`new Date(y, m - 1, d)` once its year
      has been through `FullYear`). */
  lemma MakeDateInPreviousMonth(y: int, m: int, d: int)
    requires 0 <= m < 12
    requires 1 <= d <= DaysInMonth(PreviousMonth(y, m).year, PreviousMonth(y, m).month)
    ensures MakeDate(y, m - 1, d) == Date(PreviousMonth(y, m).year, PreviousMonth(y, m).month, d)
  {
    if m == 0 {
      assert (m - 1) / 12 == -1 && (m - 1) % 12 == 11;
    } else {
      assert (m - 1) / 12 == 0 && (m - 1) % 12 == m - 1;
    }
    MakeDateInRange(y, m - 1, d);
  }

  /** Month `m + 1` with a day `d` of the next month (`new Date(y, m + 1, d)`
      once its year has been through `FullYear`). */
  lemma MakeDateInNextMonth(y: int, m: int, d: int)
    requires 0 <= m < 12
    requires 1 <= d <= DaysInMonth(NextMonth(y, m).year, NextMonth(y, m).month)
    ensures MakeDate(y, m + 1, d) == Date(NextMonth(y, m).year, NextMonth(y, m).month, d)
  {
    if m == 11 {
      assert (m + 1) / 12 == 1 && (m + 1) % 12 == 0;
    } else {
      assert (m + 1) / 12 == 0 && (m + 1) % 12 == m + 1;
    }
    MakeDateInRange(y, m + 1, d);
  }

  lemma NextMonthOfCarry(y: int, m: int)
    ensures NextMonth(y + m / 12, m % 12) == Date(y + (m + 1) / 12, (m + 1) % 12, 1)
  {
    if m % 12 == 11 {
      assert (m + 1) / 12 == m / 12 + 1 && (m + 1) % 12 == 0;
    } else {
      assert (m + 1) / 12 == m / 12 && (m + 1) % 12 == m % 12 + 1;
    }
  }

  /** A day past the end of the month `m` denotes spills over into the
      month after it. */
  lemma MakeDateOverflow(y: int, m: int, d: int)
    requires DaysInMonth(y + m / 12, m % 12) < d <= DaysInMonth(y + m / 12, m % 12) + 28
    ensures var next := NextMonth(y + m / 12, m % 12);
      MakeDate(y, m, d) == Date(next.year, next.month, d - DaysInMonth(y + m / 12, m % 12))
  {
    NextMonthOfCarry(y, m);
    MakeDateCarry(y, m, d);
    MakeDateInRange(y, m + 1, d - DaysInMonth(y + m / 12, m % 12));
  }

  /** Day 0 of a month is the last day of the month before it. */
  lemma MonthEnd(y: int, m: int)
    requires 0 <= m < 12
    ensures MakeDate(y, m + 1, 0) == Date(y, m, DaysInMonth(y, m))
    ensures MakeDate(y, m, 0)
         == Date(PreviousMonth(y, m).year, PreviousMonth(y, m).month,
                 DaysInMonth(PreviousMonth(y, m).year, PreviousMonth(y, m).month))
  {
    MakeDateZero(y, m + 1);
    assert m + 1 - 1 == m && m / 12 == 0 && m % 12 == m;
    MakeDateZero(y, m);
    if m == 0 {
      assert (m - 1) / 12 == -1 && (m - 1) % 12 == 11;
    } else {
      assert (m - 1) / 12 == 0 && (m - 1) % 12 == m - 1;
    }
  }

  /** The previous month ends the day before month `m` starts. */
  lemma PreviousMonthNumber(y: int, m: int)
    requires 0 <= m < 12
    ensures DayNumber(PreviousMonth(y, m)) + DaysInMonth(PreviousMonth(y, m).year, PreviousMonth(y, m).month)
         == DayNumber(Date(y, m, 1))
  {
    var p := PreviousMonth(y, m);
    MonthStep(p.year, p.month);
    if m == 0 {
      YearStep(y - 1);
      assert y - 1 + 1 == y;
    }
  }

  /** The next month starts the day after month `m` ends. */
  lemma NextMonthNumber(y: int, m: int)
    requires 0 <= m < 12
    ensures DayNumber(NextMonth(y, m)) == DayNumber(Date(y, m, 1)) + DaysInMonth(y, m)
  {
    MonthStep(y, m);
    if m == 11 {
      YearStep(y);
    }
  }

  /** The time value of a valid `Date` in milliseconds since the local epoch. */
  function TimeValue(v: DateValue): int
    requires v.At?
  {
    DayNumber(v.day) * MsPerDay + v.time
  }

  /** `a < b` on `Date` objects: false when either is invalid (NaN). */
  predicate Before(a: DateValue, b: DateValue) {
    a.At? && b.At? && TimeValue(a) < TimeValue(b)
  }

  /** `a <= b` on `Date` objects: false when either is invalid. */
  predicate NotAfter(a: DateValue, b: DateValue) {
    a.At? && b.At? && TimeValue(a) <= TimeValue(b)
  }

  /** Time values order instants by day first, then by time of day. */
  lemma BeforeByDay(a: DateValue, b: DateValue)
    requires a.At? && b.At?
    ensures Before(a, b) <==>
      DayNumber(a.day) < DayNumber(b.day) || (a.day == b.day && a.time < b.time)
  {
    if a.day == b.day {
    } else if DayNumber(a.day) == DayNumber(b.day) {
      DayNumberInjective(a.day, b.day);
    }
  }

  /** `a.toDateString() === b.toDateString()`: the same calendar day, where
      every invalid date prints as the same text. */
  predicate SameDateString(a: DateValue, b: DateValue) {
    (a.Invalid? && b.Invalid?) || (a.At? && b.At? && a.day == b.day)
  }

  /** `d.setDate(d.getDate() + n)` on a copy of the valid day `d`. */
  method SetDate(d: Day, n: int) returns (r: Day)
    ensures r == AddDays(d, n)
    ensures DayNumber(r) == DayNumber(d) + n
  {
    r := MakeDate(d.year, d.month, d.day + n);
    MakeDateShift(d, n);
    DayNumberOfAddDays(d, n);
  }

  /** Moving `n` days and back again returns to the same day. */
  lemma AddDaysInverse(d: Day, n: int)
    ensures AddDays(AddDays(d, n), -n) == d
  {
    DayNumberOfAddDays(d, n);
    DayNumberOfAddDays(AddDays(d, n), -n);
    DayNumberInjective(AddDays(AddDays(d, n), -n), d);
  }

  /** `new Date(y, m, 1)` for a month `m` in 0..11: the 1st of that month
      of `FullYear(y)`. */
  method FirstOfMonth(y: int, m: int) returns (r: Day)
    requires 0 <= m < 12
    ensures r == Date(FullYear(y), m, 1)
  {
    r := NewDate(y, m, 1);
    MakeDateInMonth(FullYear(y), m, 1);
  }

  /** The constructor reads a two-digit year as a year of the 1900s, and
      only then rolls the month over; the setters keep the year as given. */
  lemma TwoDigitYearExamples()
    ensures NewDate(50, 5, 15) == Date(1950, 5, 15)
    ensures MakeDate(50, 5, 15) == Date(50, 5, 15)
    ensures NewDate(0, -1, 31) == Date(1899, 11, 31)
    ensures NewDate(2025, 0, 1) == Date(2025, 0, 1)
  {
    MakeDateInMonth(1950, 5, 15);
    MakeDateInMonth(50, 5, 15);
    MakeDateInPreviousMonth(1900, 0, 31);
    MakeDateInMonth(2025, 0, 1);
  }

  /** `d.setDate(k)` on a copy of the valid day `d`: day `k` counted from
      the 1st of its month, rolling over into the neighbouring months. */
  method SetDayOfMonth(d: Day, k: int) returns (r: Day)
    ensures r == AddDays(Date(d.year, d.month, 1), k - 1)
  {
    r := MakeDate(d.year, d.month, k);
    var first: Day := Date(d.year, d.month, 1);
    MakeDateShift(first, k - 1);
  }

  /** Two moves by days add up. */
  lemma AddDaysAdd(d: Day, a: int, b: int)
    ensures AddDays(AddDays(d, a), b) == AddDays(d, a + b)
  {
    DayNumberOfAddDays(d, a);
    DayNumberOfAddDays(AddDays(d, a), b);
    DayNumberOfAddDays(d, a + b);
    DayNumberInjective(AddDays(AddDays(d, a), b), AddDays(d, a + b));
  }
}
