/**
  The week grid of the Yeeks calendar: the year's weeks as date-fns lists
  them for the zhCN locale, each week clipped to the year, numbered by its
  place in the grid and coloured past, current or future relative to today.

  `today` and `year` are parameters: the component reads the wall clock for
  both, and caches the week list in React state once per year; here the
  list is the function of `year` that the cache holds.
 */
module WeeklyCalendar {
  import opened Dates

  /** The zhCN locale of date-fns starts its weeks on Monday. */
  const ZH_CN_WEEK_STARTS_ON: Weekday := MONDAY

  /** The number of cells in one row of the grid. */
  const COLUMNS: nat := 7

  /** How a week is coloured: before today, holding today, or after today. */
  datatype Status = Past | Current | Future

  /** A week's span clipped to the year: its first and last displayed day. */
  datatype WeekRange = WeekRange(displayStart: Day, displayEnd: Day)

  /** One cell of the grid: the week's number, its range clipped to the year, and its colour. */
  datatype WeekCell = WeekCell(weekNumber: nat, displayStart: Day, displayEnd: Day, status: Status)

  // ---------------------------------------------------------------------------
  // The year and its week starts
  // ---------------------------------------------------------------------------

  /** `startOfYear(new Date(year, 0, 1))`: January 1 of the year that `new Date` reads. */
  function YearStart(year: int): Day {
    Jan1(NewDateYear(year))
  }

  /** `endOfYear(new Date(year, 0, 1))`, the last millisecond of December 31, as its day. */
  function YearEnd(year: int): (d: Day)
    ensures d - YearStart(year) + 1 == DaysInYear(NewDateYear(year))
  {
    Dec31(NewDateYear(year))
  }

  /** `eachWeekOfInterval({ start: yearStart, end: yearEnd }, { locale: zhCN })`. */
  function WeekStarts(year: int): seq<Day> {
    YearLength(NewDateYear(year));
    EachWeekOfInterval(YearStart(year), YearEnd(year), ZH_CN_WEEK_STARTS_ON)
  }

  /**
    The week starts are Mondays seven days apart, from the Monday on or
    before January 1 to the Monday on or before December 31; a year has 53
    or 54 of them.
   */
  lemma WeekStartsShape(year: int)
    ensures var weeks := WeekStarts(year);
      && 53 <= |weeks| <= 54
      && weeks[0] == StartOfWeek(YearStart(year), MONDAY)
      && weeks[|weeks| - 1] == StartOfWeek(YearEnd(year), MONDAY)
      && (forall i :: 0 <= i < |weeks| ==> DayOfWeek(weeks[i]) == MONDAY)
      && (forall i :: 0 <= i < |weeks| - 1 ==> weeks[i + 1] == weeks[i] + 7)
  {
    var weeks := WeekStarts(year);
    YearLength(NewDateYear(year));
    assert weeks[|weeks| - 1] == weeks[0] + 7 * (|weeks| - 1);
  }

  // ---------------------------------------------------------------------------
  // Clipping each week to the year
  // ---------------------------------------------------------------------------

  /** `max([weekStart, yearStart])`: the week's first day inside the year. */
  function DisplayStart(year: int, weekStart: Day): Day {
    Max(weekStart, YearStart(year))
  }

  /** `min([addDays(weekStart, 6), yearEnd])`: the week's last day inside the year. */
  function DisplayEnd(year: int, weekStart: Day): Day {
    Min(weekStart + 6, YearEnd(year))
  }

  /** The week starting on `weekStart`, clipped to `year`. */
  function Clip(year: int, weekStart: Day): WeekRange {
    WeekRange(DisplayStart(year, weekStart), DisplayEnd(year, weekStart))
  }

  /** The year's weeks, each clipped to the year, in the order date-fns lists them. */
  function Partition(year: int): seq<WeekRange> {
    var weeks := WeekStarts(year);
    seq(|weeks|, i requires 0 <= i < |weeks| => Clip(year, weeks[i]))
  }

  /**
    Only the first week is clipped at its start, to January 1, and only the
    last week at its end, to December 31; every other week shows all seven
    days of its raw span.
   */
  lemma ClippedWeek(year: int, i: nat)
    requires i < |WeekStarts(year)|
    ensures var weeks := WeekStarts(year);
      && |Partition(year)| == |weeks|
      && Partition(year)[i].displayStart == (if i == 0 then YearStart(year) else weeks[i])
      && Partition(year)[i].displayEnd == (if i == |weeks| - 1 then YearEnd(year) else weeks[i] + 6)
  {
    var weeks := WeekStarts(year);
    WeekStartsShape(year);
    assert weeks[i] == weeks[0] + 7 * i;
    assert weeks[|weeks| - 1] == weeks[0] + 7 * (|weeks| - 1);
  }

  /**
    Every clipped range is well formed and lies inside the year, so for the
    week list of `year` the interval handed to `isWithinInterval` never has
    its end before its start.
   */
  lemma DisplayRangeWellFormed(year: int)
    ensures forall i :: 0 <= i < |Partition(year)| ==>
      YearStart(year) <= Partition(year)[i].displayStart
      <= Partition(year)[i].displayEnd <= YearEnd(year)
    ensures forall i :: 0 <= i < |Partition(year)| ==>
      Partition(year)[i].displayEnd - Partition(year)[i].displayStart < 7
  {
    YearLength(NewDateYear(year));
    forall i | 0 <= i < |Partition(year)|
      ensures YearStart(year) <= Partition(year)[i].displayStart
        <= Partition(year)[i].displayEnd <= YearEnd(year)
      ensures Partition(year)[i].displayEnd - Partition(year)[i].displayStart < 7
    {
      ClippedWeek(year, i);
    }
  }

  /** Week 1 starts on January 1 and the last week ends on December 31. */
  lemma YearBoundaries(year: int)
    ensures |Partition(year)| > 0
    ensures Partition(year)[0].displayStart == YearStart(year)
    ensures Partition(year)[|Partition(year)| - 1].displayEnd == YearEnd(year)
  {
    ClippedWeek(year, 0);
    ClippedWeek(year, |WeekStarts(year)| - 1);
  }

  /**
    The first week is a full seven days exactly when January 1 is a Monday,
    and the last week exactly when December 31 is a Sunday; otherwise each is
    a partial week.
   */
  lemma PartialEndWeeks(year: int)
    ensures var weeks := Partition(year);
      && |weeks| > 0
      && (weeks[0].displayEnd - weeks[0].displayStart == 6
          <==> DayOfWeek(YearStart(year)) == MONDAY)
      && (weeks[|weeks| - 1].displayEnd - weeks[|weeks| - 1].displayStart == 6
          <==> DayOfWeek(YearEnd(year)) == SUNDAY)
  {
    var starts := WeekStarts(year);
    var n := |starts|;
    WeekStartsShape(year);
    ClippedWeek(year, 0);
    ClippedWeek(year, n - 1);
    StartOfWeekMonotone(YearStart(year), YearStart(year), MONDAY);
    WeekdayShift(starts[n - 1], 6);
    if DayOfWeek(YearEnd(year)) == SUNDAY {
      WeekdayShift(YearEnd(year), -6);
      assert YearEnd(year) + -6 == YearEnd(year) - 6;
      StartOfWeekIsUnique(YearEnd(year), MONDAY, YearEnd(year) - 6);
    }
  }

  /** Consecutive weeks tile the year: each starts the day after its predecessor ends. */
  lemma WeeksTile(year: int)
    ensures forall i :: 0 <= i < |Partition(year)| - 1 ==>
      Partition(year)[i].displayEnd + 1 == Partition(year)[i + 1].displayStart
  {
    WeekStartsShape(year);
    forall i | 0 <= i < |Partition(year)| - 1
      ensures Partition(year)[i].displayEnd + 1 == Partition(year)[i + 1].displayStart
    {
      ClippedWeek(year, i);
      ClippedWeek(year, i + 1);
    }
  }

  /**
    The position of the week that holds day `d`: whole weeks from the first
    week start to the Monday on or before `d`.
   */
  function WeekIndexOf(year: int, d: Day): int {
    (StartOfWeek(d, ZH_CN_WEEK_STARTS_ON) - WeekStarts(year)[0]) / 7
  }

  /**
    Every day of the year lies in the clipped range of exactly one week, the
    one at `WeekIndexOf`.
   */
  lemma DayInExactlyOneWeek(year: int, d: Day)
    requires YearStart(year) <= d <= YearEnd(year)
    ensures 0 <= WeekIndexOf(year, d) < |Partition(year)|
    ensures forall i :: 0 <= i < |Partition(year)| ==>
      (Partition(year)[i].displayStart <= d <= Partition(year)[i].displayEnd
       <==> i == WeekIndexOf(year, d))
  {
    var weeks := WeekStarts(year);
    var k := WeekIndexOf(year, d);
    WeekIndexOfStartsTheWeek(year, d);
    forall i | 0 <= i < |weeks|
      ensures Partition(year)[i].displayStart <= d <= Partition(year)[i].displayEnd <==> i == k
    {
      InWeekIffSameStart(year, d, i);
      assert weeks[i] == weeks[0] + 7 * i && weeks[k] == weeks[0] + 7 * k;
    }
  }

  /** `WeekIndexOf` a day of the year is a position in the week list holding that day's week start. */
  lemma WeekIndexOfStartsTheWeek(year: int, d: Day)
    requires YearStart(year) <= d <= YearEnd(year)
    ensures 0 <= WeekIndexOf(year, d) < |WeekStarts(year)| == |Partition(year)|
    ensures WeekStarts(year)[WeekIndexOf(year, d)] == StartOfWeek(d, MONDAY)
    ensures forall i :: 0 <= i < |WeekStarts(year)| ==> WeekStarts(year)[i] == WeekStarts(year)[0] + 7 * i
  {
    var weeks := WeekStarts(year);
    var n := |weeks|;
    var s := StartOfWeek(d, MONDAY);
    var k := WeekIndexOf(year, d);
    StartOfWeekMonotone(YearStart(year), d, MONDAY);
    StartOfWeekMonotone(d, YearEnd(year), MONDAY);
    SameWeekdayApart(weeks[0], s);
    assert s == weeks[0] + 7 * k;
    assert weeks[n - 1] == weeks[0] + 7 * (n - 1);
  }

  /** A day of the year lies in week `i`'s clipped range iff `i` starts that day's week. */
  lemma InWeekIffSameStart(year: int, d: Day, i: nat)
    requires YearStart(year) <= d <= YearEnd(year)
    requires i < |WeekStarts(year)|
    ensures Partition(year)[i].displayStart <= d <= Partition(year)[i].displayEnd
      <==> WeekStarts(year)[i] == StartOfWeek(d, MONDAY)
  {
    var w := WeekStarts(year)[i];
    ClippedWeek(year, i);
    assert Partition(year)[i] == Clip(year, w);
    if w <= d < w + 7 {
      StartOfWeekIsUnique(d, MONDAY, w);
    }
  }

  // ---------------------------------------------------------------------------
  // Colouring a week against today
  // ---------------------------------------------------------------------------

  /**
    The background colour: current when today lies in the displayed range
    (`isWithinInterval`), otherwise past when the range ends before today
    (`isBefore(displayEnd, today)`), otherwise future.
   */
  function Classify(today: Day, displayStart: Day, displayEnd: Day): (s: Status)
    ensures s == Current <==> displayStart <= today <= displayEnd
    ensures s == Past <==> displayEnd < today
    ensures displayStart <= displayEnd ==> (s == Future <==> today < displayStart)
  {
    if displayStart <= today <= displayEnd then Current
    else if displayEnd < today then Past
    else Future
  }

  /**
    The colour of the hover text, which asks `isBefore(displayEnd, today)`
    first and only then whether the week is current. The two questions never
    both hold, so the text always agrees with the background.
   */
  function HoverTextStatus(today: Day, displayStart: Day, displayEnd: Day): (s: Status)
    ensures s == Classify(today, displayStart, displayEnd)
  {
    if displayEnd < today then Past
    else if displayStart <= today <= displayEnd then Current
    else Future
  }

  /** The cell at grid position `index` for the week starting on `weekStart`. */
  function Cell(year: int, today: Day, index: nat, weekStart: Day): WeekCell {
    var range := Clip(year, weekStart);
    WeekCell(index + 1, range.displayStart, range.displayEnd, Classify(today, range.displayStart, range.displayEnd))
  }

  // ---------------------------------------------------------------------------
  // The grid
  // ---------------------------------------------------------------------------

  /** `Math.ceil(n / 7)`: the fewest rows of seven that hold `n` cells. */
  function RowCount(n: nat): (rows: nat)
    ensures COLUMNS * rows >= n
    ensures rows > 0 ==> COLUMNS * (rows - 1) < n
  {
    (n + COLUMNS - 1) / COLUMNS
  }

  /** `Array.prototype.slice(from, to)` for `from <= to`: the ends are clamped to the length. */
  function Slice<T>(s: seq<T>, from: nat, to: nat): (r: seq<T>)
    requires from <= to
    ensures |r| == Min(to, |s|) - Min(from, |s|)
    ensures forall k :: 0 <= k < |r| ==> r[k] == s[from + k]
  {
    if from >= |s| then [] else s[from..Min(to, |s|)]
  }

  /** Row `row` of the table: `weeks.slice(row * 7, (row + 1) * 7)`, cell `col` at index `row * 7 + col`. */
  function RowCells(year: int, today: Day, weeks: seq<Day>, row: nat): seq<WeekCell> {
    var slice := Slice(weeks, row * COLUMNS, (row + 1) * COLUMNS);
    seq(|slice|, col requires 0 <= col < |slice| => Cell(year, today, row * COLUMNS + col, slice[col]))
  }

  /** Rows `row`, `row + 1`, … up to `rowCount`, read left to right and top to bottom. */
  function RowsFrom(year: int, today: Day, weeks: seq<Day>, row: nat): seq<WeekCell>
    decreases RowCount(|weeks|) - row
  {
    if row >= RowCount(|weeks|) then []
    else RowCells(year, today, weeks, row) + RowsFrom(year, today, weeks, row + 1)
  }

  /**
    The table drawn for `year` from the week list `weeks` held in component
    state. The list is the one computed for the year of the last effect run,
    which may lag one render behind `year`.
   */
  function Table(year: int, today: Day, weeks: seq<Day>): seq<WeekCell> {
    RowsFrom(year, today, weeks, 0)
  }

  /** The table once the effect has stored the week list of `year` itself. */
  function Render(year: int, today: Day): seq<WeekCell> {
    Table(year, today, WeekStarts(year))
  }

  /** The rows from `row` on hold the weeks from `row * 7` on, each once, in order. */
  lemma {:induction false} RowsFromInOrder(year: int, today: Day, weeks: seq<Day>, row: nat)
    ensures |RowsFrom(year, today, weeks, row)| == |weeks| - Min(row * COLUMNS, |weeks|)
    ensures forall k :: 0 <= k < |RowsFrom(year, today, weeks, row)| ==>
      RowsFrom(year, today, weeks, row)[k] == Cell(year, today, row * COLUMNS + k, weeks[row * COLUMNS + k])
    decreases RowCount(|weeks|) - row
  {
    if row < RowCount(|weeks|) {
      RowsFromInOrder(year, today, weeks, row + 1);
      var here := RowCells(year, today, weeks, row);
      var rest := RowsFrom(year, today, weeks, row + 1);
      assert |here| == Min((row + 1) * COLUMNS, |weeks|) - row * COLUMNS;
      forall k | 0 <= k < |here + rest|
        ensures (here + rest)[k] == Cell(year, today, row * COLUMNS + k, weeks[row * COLUMNS + k])
      {
        if k >= |here| {
          assert (here + rest)[k] == rest[k - |here|];
        }
      }
    }
  }

  /**
    The table's row and column indices visit every week of the year exactly
    once, in chronological order: cell `i` is week `i + 1`, shows the `i`-th
    clipped range of the partition, and is coloured by that range.
   */
  lemma RenderIsChronological(year: int, today: Day)
    ensures |Render(year, today)| == |Partition(year)|
    ensures forall i :: 0 <= i < |Render(year, today)| ==>
      Render(year, today)[i] == WeekCell(i + 1, Partition(year)[i].displayStart, Partition(year)[i].displayEnd,
        Classify(today, Partition(year)[i].displayStart, Partition(year)[i].displayEnd))
  {
    RowsFromInOrder(year, today, WeekStarts(year), 0);
  }

  /** The table of any year has eight rows. */
  lemma EightRows(year: int)
    ensures RowCount(|WeekStarts(year)|) == 8
  {
    WeekStartsShape(year);
  }

  /**
    On the render right after `year` moves to a later year, the cells still
    show the previous year's week list clipped to the new year's bounds: the
    first week then ends before it starts.
   */
  lemma StaleWeekListAfterYearChange(oldYear: int, year: int, today: Day)
    requires NewDateYear(oldYear) < NewDateYear(year)
    ensures |Table(year, today, WeekStarts(oldYear))| > 0
    ensures Table(year, today, WeekStarts(oldYear))[0].displayEnd
      < Table(year, today, WeekStarts(oldYear))[0].displayStart
  {
    var weeks := WeekStarts(oldYear);
    RowsFromInOrder(year, today, weeks, 0);
    var cell := Table(year, today, weeks)[0];
    assert cell == Cell(year, today, 0, weeks[0]);
    assert weeks[0] <= YearStart(oldYear);
    Jan1Increasing(NewDateYear(oldYear), NewDateYear(year));
    assert cell.displayEnd <= weeks[0] + 6 < YearStart(year) <= cell.displayStart;
  }

  // ---------------------------------------------------------------------------
  // Classification across the year
  // ---------------------------------------------------------------------------

  /** Ranges that tile a stretch of days: each well formed, each starting the day after the previous ends. */
  ghost predicate Tiled(ranges: seq<WeekRange>) {
    && (forall m :: 0 <= m < |ranges| ==> ranges[m].displayStart <= ranges[m].displayEnd)
    && (forall m :: 0 <= m < |ranges| - 1 ==> ranges[m].displayEnd + 1 == ranges[m + 1].displayStart)
  }

  /**
    Over tiled ranges, if the range at `k` holds today, earlier ranges are
    classified past and later ones future.
   */
  lemma TiledStatuses(ranges: seq<WeekRange>, today: Day, k: int)
    requires Tiled(ranges)
    requires 0 <= k < |ranges| && ranges[k].displayStart <= today <= ranges[k].displayEnd
    ensures forall i :: 0 <= i < |ranges| ==>
      && (Classify(today, ranges[i].displayStart, ranges[i].displayEnd) == Past <==> i < k)
      && (Classify(today, ranges[i].displayStart, ranges[i].displayEnd) == Current <==> i == k)
      && (Classify(today, ranges[i].displayStart, ranges[i].displayEnd) == Future <==> i > k)
  {
    forall i | 0 <= i < |ranges|
      ensures Classify(today, ranges[i].displayStart, ranges[i].displayEnd) == Past <==> i < k
      ensures Classify(today, ranges[i].displayStart, ranges[i].displayEnd) == Current <==> i == k
      ensures Classify(today, ranges[i].displayStart, ranges[i].displayEnd) == Future <==> i > k
    {
      if i < k {
        EndsAreOrdered(ranges, i, k - 1);
      } else if i > k {
        StartsAreOrdered(ranges, k + 1, i);
      }
    }
  }

  /** In a tiling of well-formed ranges, a later range ends no earlier. */
  lemma {:induction false} EndsAreOrdered(ranges: seq<WeekRange>, i: nat, j: nat)
    requires i <= j < |ranges|
    requires Tiled(ranges)
    ensures ranges[i].displayEnd <= ranges[j].displayEnd
    decreases j - i
  {
    if i < j {
      EndsAreOrdered(ranges, i + 1, j);
    }
  }

  /** In a tiling of well-formed ranges, a later range starts no earlier. */
  lemma {:induction false} StartsAreOrdered(ranges: seq<WeekRange>, i: nat, j: nat)
    requires i <= j < |ranges|
    requires Tiled(ranges)
    ensures ranges[i].displayStart <= ranges[j].displayStart
    decreases j - i
  {
    if i < j {
      StartsAreOrdered(ranges, i, j - 1);
    }
  }

  /**
    When today is in the year, the week holding it is the only current one,
    every earlier week is past and every later week is future. Before the
    year every week is future; after it every week is past.
   */
  lemma StatusesAroundToday(year: int, today: Day)
    ensures YearStart(year) <= today <= YearEnd(year) ==>
      forall i :: 0 <= i < |Render(year, today)| ==>
        && (Render(year, today)[i].status == Past <==> i < WeekIndexOf(year, today))
        && (Render(year, today)[i].status == Current <==> i == WeekIndexOf(year, today))
        && (Render(year, today)[i].status == Future <==> i > WeekIndexOf(year, today))
    ensures today < YearStart(year) ==>
      forall i :: 0 <= i < |Render(year, today)| ==> Render(year, today)[i].status == Future
    ensures today > YearEnd(year) ==>
      forall i :: 0 <= i < |Render(year, today)| ==> Render(year, today)[i].status == Past
  {
    if YearStart(year) <= today <= YearEnd(year) {
      StatusesInYear(year, today);
    } else {
      RenderIsChronological(year, today);
      DisplayRangeWellFormed(year);
    }
  }

  /** The case of `StatusesAroundToday` where today lies in the year. */
  lemma StatusesInYear(year: int, today: Day)
    requires YearStart(year) <= today <= YearEnd(year)
    ensures forall i :: 0 <= i < |Render(year, today)| ==>
      && (Render(year, today)[i].status == Past <==> i < WeekIndexOf(year, today))
      && (Render(year, today)[i].status == Current <==> i == WeekIndexOf(year, today))
      && (Render(year, today)[i].status == Future <==> i > WeekIndexOf(year, today))
  {
    RenderIsChronological(year, today);
    DisplayRangeWellFormed(year);
    WeeksTile(year);
    DayInExactlyOneWeek(year, today);
    TiledStatuses(Partition(year), today, WeekIndexOf(year, today));
  }

  /** At most one week is current, and one is exactly when today falls in the year. */
  lemma AtMostOneCurrent(year: int, today: Day)
    ensures forall i, j :: 0 <= i < j < |Render(year, today)| ==>
      !(Render(year, today)[i].status == Current && Render(year, today)[j].status == Current)
    ensures (exists i :: 0 <= i < |Render(year, today)| && Render(year, today)[i].status == Current)
      <==> YearStart(year) <= today <= YearEnd(year)
  {
    StatusesAroundToday(year, today);
    if YearStart(year) <= today <= YearEnd(year) {
      DayInExactlyOneWeek(year, today);
      RenderIsChronological(year, today);
      assert Render(year, today)[WeekIndexOf(year, today)].status == Current;
    }
  }

  // ---------------------------------------------------------------------------
  // Years and concrete cases
  // ---------------------------------------------------------------------------

  /** JavaScript's reading of two-digit years makes years 0 to 99 show the weeks of 1900 to 1999. */
  lemma TwoDigitYearsAlias(year: int, today: Day)
    requires 0 <= year <= 99
    ensures Render(year, today) == Render(year + 1900, today)
  {
    assert NewDateYear(year) == NewDateYear(year + 1900);
    assert YearStart(year) == YearStart(year + 1900) && YearEnd(year) == YearEnd(year + 1900);
    assert WeekStarts(year) == WeekStarts(year + 1900);
    SameBoundsSameTable(year, year + 1900, today, WeekStarts(year));
  }

  /** The table depends on `year` only through the year's first and last day. */
  lemma SameBoundsSameTable(a: int, b: int, today: Day, weeks: seq<Day>)
    requires YearStart(a) == YearStart(b) && YearEnd(a) == YearEnd(b)
    ensures Table(a, today, weeks) == Table(b, today, weeks)
  {
    RowsFromInOrder(a, today, weeks, 0);
    RowsFromInOrder(b, today, weeks, 0);
    forall k | 0 <= k < |weeks| ensures Table(a, today, weeks)[k] == Table(b, today, weeks)[k] {
      assert Cell(a, today, k, weeks[k]) == Cell(b, today, k, weeks[k]);
    }
  }

  /**
    2025 begins on a Wednesday, so its week 1 is the partial week from
    January 1 to January 5, the days the label "1.1 - 1.5" names; the year
    has 53 weeks.
   */
  lemma Year2025(today: Day)
    ensures DayOfWeek(CivilDay(2025, 1, 1)) == WEDNESDAY
    ensures |Render(2025, today)| == 53
    ensures Render(2025, today)[0].weekNumber == 1
    ensures Render(2025, today)[0].displayStart == CivilDay(2025, 1, 1)
    ensures Render(2025, today)[0].displayEnd == CivilDay(2025, 1, 5)
  {
    var jan1, dec31 := CivilDay(2025, 1, 1), YearEnd(2025);
    assert jan1 == YearStart(2025) == 20089;
    assert dec31 == Jan1(2026) - 1 == 20453;
    assert DayOfWeek(jan1) == WEDNESDAY by {
      assert jan1 + THURSDAY == 7 * 2870 + 3;
    }
    assert DayOfWeek(dec31) == WEDNESDAY by {
      assert dec31 + THURSDAY == 7 * 2922 + 3;
    }
    StartOfWeekIsUnique(jan1, MONDAY, jan1 - 2);
    StartOfWeekIsUnique(dec31, MONDAY, dec31 - 2);
    WeekStartsShape(2025);
    var weeks := WeekStarts(2025);
    assert weeks[|weeks| - 1] == weeks[0] + 7 * (|weeks| - 1);
    RenderIsChronological(2025, today);
    ClippedWeek(2025, 0);
  }
}
