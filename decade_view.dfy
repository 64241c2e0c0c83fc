/** The decade view: one tile for each year of the anchor's decade, with
    the year before and the two after it when neighbouring years are shown. */
module DecadePanel {
  import opened Wrappers
  import opened Dates
  import opened Navigation
  import opened CalendarRules
  import opened YearPanel

  /** A year tile: the year, 1 January of it at midnight, and whether it is
      disabled, selected and inside the decade shown. */
  datatype YearTile = YearTile(year: int, date: DateValue, disabled: bool, selected: bool, currentDecade: bool)

  /** The first year listed. */
  function FirstYear(year: int, showNeighboringCentury: bool): int {
    DecadeStart(year) - (if showNeighboringCentury then 1 else 0)
  }

  /** The number of years listed: ten, or thirteen with the neighbours. */
  function TileCount(showNeighboringCentury: bool): nat {
    if showNeighboringCentury then 13 else 10
  }

  /** A year is selected when the value, or one of its dates, is a valid
      date in that year. */
  predicate YearSelected(value: Value, year: int) {
    match value
    case NoValue => false
    case OneDate(v) => v.At? && v.day.year == year
    case DateList(vs) => exists i :: 0 <= i < |vs| && vs[i].At? && vs[i].day.year == year
  }

  /** The loop of the decade view: the listed years in order, each
      disabled by `disabled` (the calendar's `isYearDisabled`) and marked as
      inside the decade exactly when it has the anchor's decade start. The
      tiles are dated with `new Date(year, 0, 1)`, which puts a year 0..99
      in 1900 + year; the other fields use the year as listed. */
  method YearTiles(date: Day, showNeighboringCentury: bool, value: Value, disabled: int -> bool)
    returns (tiles: seq<YearTile>)
    ensures |tiles| == TileCount(showNeighboringCentury)
    ensures forall i :: 0 <= i < |tiles| ==>
      tiles[i].year == FirstYear(date.year, showNeighboringCentury) + i
      && tiles[i].date == At(Date(FullYear(tiles[i].year), 0, 1), 0)
      && tiles[i].disabled == disabled(tiles[i].year)
      && tiles[i].selected == YearSelected(value, tiles[i].year)
      && (tiles[i].currentDecade <==> DecadeStart(tiles[i].year) == DecadeStart(date.year))
  {
    var currentYear := date.year;
    var decadeStart := DecadeStart(currentYear);
    var startYear := if showNeighboringCentury then decadeStart - 1 else decadeStart;
    var endYear := if showNeighboringCentury then decadeStart + 11 else decadeStart + 9;
    tiles := [];
    var year := startYear;
    while year <= endYear
      invariant startYear <= year <= endYear + 1 && |tiles| == year - startYear
      invariant forall i :: 0 <= i < |tiles| ==>
        tiles[i].year == startYear + i
        && tiles[i].date == At(Date(FullYear(tiles[i].year), 0, 1), 0)
        && tiles[i].disabled == disabled(tiles[i].year)
        && tiles[i].selected == YearSelected(value, tiles[i].year)
        && (tiles[i].currentDecade <==> DecadeStart(tiles[i].year) == DecadeStart(date.year))
    {
      var first := FirstOfMonth(year, 0);
      var isCurrentDecade := year >= decadeStart && year <= decadeStart + 9;
      SameDecade(year, decadeStart);
      tiles := tiles + [YearTile(year, At(first, 0), disabled(year), YearSelected(value, year), isCurrentDecade)];
      year := year + 1;
    }
  }

  /** A year lies in the decade starting at `start` exactly when it has
      that decade start. */
  lemma SameDecade(year: int, start: int)
    requires start % 10 == 0
    ensures start <= year <= start + 9 <==> DecadeStart(year) == start
  {
    var s := DecadeStart(year);
    if start <= year <= start + 9 {
      assert s == start by {
        assert s <= year < s + 10;
        assert s - start == 10 * ((s - start) / 10);
      }
    }
  }

  /** With neighbouring years shown, the tiles are the year before the
      decade, its ten years, and the two years after it; without them,
      exactly its ten years. */
  lemma NeighbouringTiles(year: int, showNeighboringCentury: bool, i: int)
    requires 0 <= i < TileCount(showNeighboringCentury)
    ensures var y := FirstYear(year, showNeighboringCentury) + i;
      DecadeStart(y) == DecadeStart(year) <==> (!showNeighboringCentury || 1 <= i <= 10)
  {
    SameDecade(FirstYear(year, showNeighboringCentury) + i, DecadeStart(year));
  }

  /** The anchor's own year is always among the tiles. */
  lemma AnchorYearListed(year: int, showNeighboringCentury: bool)
    ensures var i := year - FirstYear(year, showNeighboringCentury);
      0 <= i < TileCount(showNeighboringCentury) && FirstYear(year, showNeighboringCentury) + i == year
  {
  }

  /** A single valid date selects exactly its own year. */
  lemma OneDateSelectsItsYear(v: Day, t: TimeOfDay, year: int)
    ensures YearSelected(OneDate(At(v, t)), year) <==> year == v.year
  {
  }

  /** A year tile is selected exactly when the year view of that year
      would select one of its month tiles. */
  lemma YearSelectedIffSomeMonth(value: Value, year: int)
    ensures YearSelected(value, year) <==> exists m :: 0 <= m < 12 && MonthSelected(value, year, m)
  {
    if YearSelected(value, year) {
      match value
      case OneDate(v) =>
        assert MonthSelected(value, year, v.day.month);
      case DateList(vs) =>
        var i :| 0 <= i < |vs| && vs[i].At? && vs[i].day.year == year;
        assert MonthSelected(value, year, vs[i].day.month);
    }
  }
}
