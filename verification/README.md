# Yeeks weekly calendar: week partition and classification

Yeeks shows one calendar year as a grid of weeks, seven cells to a row.
The component `WeeklyCalendar` works in four steps:

1. It asks date-fns for the start of every week that meets the year. It uses
   the zhCN locale, whose weeks begin on Monday.
2. It clips each week's seven-day span to January 1 – December 31.
3. It numbers each week by its position in the grid.
4. It colours each week past, current or future relative to today.

This project models those steps in Dafny and proves the properties the
layout relies on:

- once the week list belongs to the year shown, every displayed range is
  well formed;
- the weeks tile the year without gaps or overlaps;
- week 1 starts on January 1 and the last week ends on December 31;
- the grid visits every week once, in chronological order;
- exactly one week is current when today is in the year, and none when it
  is not.

Two modules:

- `Dates` (`dates.dfy`) models the calendar arithmetic the component
  borrows from JavaScript's `Date` and from date-fns. A moment is reduced to
  its calendar day: an integer counted from 1970-01-01 in the proleptic
  Gregorian calendar. The module covers:
  - `Jan1`, `Dec31` and leap years;
  - `getDay` weekday numbering (0 is Sunday);
  - `startOfWeek`, `eachWeekOfInterval`, `max` and `min`;
  - the reading of `new Date(year, 0, 1)`.
- `WeeklyCalendar` (`weekly_calendar.dfy`) models the component:
  - `WeekStarts` is the week list;
  - `DisplayStart`, `DisplayEnd` and `Clip` are the clipping, and
    `Partition` is the year's clipped weeks, which do not depend on today;
  - `Classify` is the background colour and `HoverTextStatus` the hover text colour;
  - `RowCount`, `Slice`, `RowCells` and `RowsFrom` are the table walk;
  - `Table` draws the cells from whatever week list the component holds, and
    `Render` is the table once that list belongs to `year`.

`today` and `year` are parameters. The component reads both from the wall
clock. `today` is taken at the start of its day. The only other moments
compared are start-of-day values and the last millisecond of December 31,
so comparing whole days gives the same answers as comparing timestamps.

JavaScript reads `new Date(year, 0, 1)` with `year` between 0 and 99 as a
year of the 1900s. The model keeps this behaviour (`Dates.NewDateYear`), so
`Render(25, today)` shows the weeks of 1925 (`TwoDigitYearsAlias`).

A week list that starts on a Monday might suggest that week 1 begins on
January 1 only when January 1 is a Monday. It does not: the code takes
`max([weekStart, yearStart])`, so the first week always begins on
January 1 (`YearBoundaries`). What depends on the weekday of January 1 is
the first week's length. That week is partial exactly when January 1 is
not a Monday (`PartialEndWeeks`).

The week list lives in React state and only the effect updates it, after a
render. The clipping bounds are recomputed from `year` on every render. So
on the render right after `year` moves to a later year, the cells still use
the previous year's week list clipped to the new year. Week 1 then ends
before it starts (`StaleWeekListAfterYearChange`). Once the effect has run,
the list belongs to `year` and every range is well formed
(`DisplayRangeWellFormed`).

## Model

| member | source | states |
|---|---|---|
| `Dates.Jan1` | src/app/components/WeeklyCalendar.tsx:20 | January 1 of a year as a day number; characterised by `Dates.Jan1IsCounted` and `Dates.YearLength` (no contract of its own) |
| `Dates.YearLength` | src/app/components/WeeklyCalendar.tsx:20-21 | the year from `startOfYear` to `endOfYear` spans 366 days in a leap year and 365 otherwise |
| `Dates.Jan1IsCounted` | src/app/components/WeeklyCalendar.tsx:20-21 | the closed formula for January 1 equals a count of year lengths away from 1970, for every integer year |
| `Dates.Jan1Increasing` | src/app/components/WeeklyCalendar.tsx:53-54 | a later year begins at least 365 days later |
| `Dates.Dec31` | src/app/components/WeeklyCalendar.tsx:21 | December 31 is the last of the year's days counted from January 1 |
| `Dates.NewDateYear` | src/app/components/WeeklyCalendar.tsx:20-21 | `new Date(year, 0, 1)` reads years 0–99 as 1900–1999 and leaves every other year unchanged; the result is in the 1900s exactly for years 0–99 and 1900–1999 |
| `Dates.DayOfWeek` | src/app/components/WeeklyCalendar.tsx:23-26 | `getDay`, with 1970-01-01 a Thursday; characterised by `Dates.WeekdayShift` and `Dates.SameWeekdayApart` (no contract of its own) |
| `Dates.WeekdayShift` | src/app/components/WeeklyCalendar.tsx:23-26 | moving `k` days moves the weekday by `k` modulo 7 |
| `Dates.SameWeekdayApart` | src/app/components/WeeklyCalendar.tsx:23-26 | two days share a weekday iff they are a whole number of weeks apart |
| `Dates.StartOfWeek` | src/app/components/WeeklyCalendar.tsx:23-26 | the start of `d`'s week is the one day with the locale's first weekday among the seven days ending at `d` |
| `Dates.StartOfWeekIsUnique` | src/app/components/WeeklyCalendar.tsx:23-26 | any day with those two properties is the week start |
| `Dates.StartOfWeekMonotone` | src/app/components/WeeklyCalendar.tsx:23-26 | later days have week starts that are no earlier, and a week-start day is its own week start |
| `Dates.WeeksFromIsProgression` | src/app/components/WeeklyCalendar.tsx:23-26 | walking in steps of 7 gives `first + 7*i` at position `i`, up to the last term not after `last` |
| `Dates.EachWeekOfInterval` | src/app/components/WeeklyCalendar.tsx:23-26 | the list is non-empty, runs from the week start of `start` to the week start of `end`, and holds days of the locale's first weekday seven days apart |
| `Dates.Max` | src/app/components/WeeklyCalendar.tsx:57 | the later of two days: not before either, and one of them |
| `Dates.Min` | src/app/components/WeeklyCalendar.tsx:59 | the earlier of two days: not after either, and one of them |
| `WeeklyCalendar.YearStart` | src/app/components/WeeklyCalendar.tsx:20 | `startOfYear(new Date(year, 0, 1))`: January 1 of `NewDateYear(year)`; its relation to the rest of the year is stated by `WeeklyCalendar.YearEnd` (no contract of its own) |
| `WeeklyCalendar.YearEnd` | src/app/components/WeeklyCalendar.tsx:21 | the year's last day is the year's length after its first day, less one |
| `WeeklyCalendar.WeekStarts` | src/app/components/WeeklyCalendar.tsx:23-26 | the week list; characterised by `WeeklyCalendar.WeekStartsShape` (no contract of its own) |
| `WeeklyCalendar.WeekStartsShape` | src/app/components/WeeklyCalendar.tsx:20-26 | the year's week starts are Mondays seven days apart, from the Monday on or before January 1 to the Monday on or before December 31, and there are 53 or 54 of them |
| `WeeklyCalendar.DisplayStart` | src/app/components/WeeklyCalendar.tsx:57 | `max([weekStart, yearStart])`; characterised by `WeeklyCalendar.ClippedWeek` (no contract of its own) |
| `WeeklyCalendar.DisplayEnd` | src/app/components/WeeklyCalendar.tsx:59 | `min([addDays(weekStart, 6), yearEnd])`; characterised by `WeeklyCalendar.ClippedWeek` (no contract of its own) |
| `WeeklyCalendar.Clip` | src/app/components/WeeklyCalendar.tsx:56-59 | one week clipped to the year; characterised by `WeeklyCalendar.ClippedWeek` (no contract of its own) |
| `WeeklyCalendar.Partition` | src/app/components/WeeklyCalendar.tsx:53-59 | every week of the year clipped to the year; characterised by `ClippedWeek`, `DisplayRangeWellFormed`, `YearBoundaries`, `WeeksTile` and `DayInExactlyOneWeek` (no contract of its own) |
| `WeeklyCalendar.ClippedWeek` | src/app/components/WeeklyCalendar.tsx:56-59 | only the first week is clipped at its start (to January 1) and only the last at its end (to December 31); every other week shows its raw seven days |
| `WeeklyCalendar.DisplayRangeWellFormed` | src/app/components/WeeklyCalendar.tsx:57-59 | every clipped range of the year's own week list has start ≤ end, lies inside the year and is at most seven days long |
| `WeeklyCalendar.YearBoundaries` | src/app/components/WeeklyCalendar.tsx:56-59 | week 1's display start is January 1 and the last week's display end is December 31 |
| `WeeklyCalendar.PartialEndWeeks` | src/app/components/WeeklyCalendar.tsx:56-59 | the first week is a full seven days iff January 1 is a Monday; the last week is full iff December 31 is a Sunday |
| `WeeklyCalendar.WeeksTile` | src/app/components/WeeklyCalendar.tsx:23-26 | each week's display start is the day after the previous week's display end |
| `WeeklyCalendar.WeekIndexOfStartsTheWeek` | src/app/components/WeeklyCalendar.tsx:23-26 | for a day of the year, `WeekIndexOf` is a position in the week list, and the week start there is the Monday on or before that day |
| `WeeklyCalendar.InWeekIffSameStart` | src/app/components/WeeklyCalendar.tsx:57-59 | a day of the year lies in week `i`'s clipped range iff week `i` starts on the Monday on or before that day |
| `WeeklyCalendar.DayInExactlyOneWeek` | src/app/components/WeeklyCalendar.tsx:57-59 | every day of the year lies in the clipped range of one and only one week, the one at `WeekIndexOf` |
| `WeeklyCalendar.Classify` | src/app/components/WeeklyCalendar.tsx:65-85 | a week is current iff today is in its range, past iff its range ends before today, and otherwise future, i.e. its range starts after today |
| `WeeklyCalendar.HoverTextStatus` | src/app/components/WeeklyCalendar.tsx:96-101 | the hover text checks "past" before "current", yet it always agrees with the background colour |
| `WeeklyCalendar.Cell` | src/app/components/WeeklyCalendar.tsx:52-68 | one table cell: number `index + 1`, the clipped range and its colour; characterised by `WeeklyCalendar.RenderIsChronological` (no contract of its own) |
| `WeeklyCalendar.RowCount` | src/app/components/WeeklyCalendar.tsx:32 | `Math.ceil(n / 7)` is the fewest rows of seven that hold `n` cells |
| `WeeklyCalendar.Slice` | src/app/components/WeeklyCalendar.tsx:51 | `slice(from, to)` clamps both ends to the length and copies the elements from `from` on |
| `WeeklyCalendar.RowCells` | src/app/components/WeeklyCalendar.tsx:51-52 | one row of the table; characterised by `WeeklyCalendar.RowsFromInOrder` (no contract of its own) |
| `WeeklyCalendar.RowsFrom` | src/app/components/WeeklyCalendar.tsx:49-52 | the rows from `row` on; characterised by `WeeklyCalendar.RowsFromInOrder` (no contract of its own) |
| `WeeklyCalendar.Table` | src/app/components/WeeklyCalendar.tsx:16-62 | the cells drawn from the week list in state; characterised by `WeeklyCalendar.RowsFromInOrder` (no contract of its own) |
| `WeeklyCalendar.Render` | src/app/components/WeeklyCalendar.tsx:19-62 | the table once the week list belongs to `year`; characterised by `WeeklyCalendar.RenderIsChronological` (no contract of its own) |
| `WeeklyCalendar.RowsFromInOrder` | src/app/components/WeeklyCalendar.tsx:49-52 | the rows from `row` on hold exactly the weeks from `row * 7` on, each once, at index `row * 7 + col` |
| `WeeklyCalendar.RenderIsChronological` | src/app/components/WeeklyCalendar.tsx:49-68 | the table lists every week once, in chronological order; cell `i` is week `i + 1`, shows the `i`-th clipped range and is coloured by it |
| `WeeklyCalendar.EightRows` | src/app/components/WeeklyCalendar.tsx:32 | every year's table has eight rows |
| `WeeklyCalendar.StaleWeekListAfterYearChange` | src/app/components/WeeklyCalendar.tsx:16-29 | on the render right after `year` moves to a later year, the previous year's week list clipped to the new year gives week 1 an end before its start |
| `WeeklyCalendar.TiledStatuses` | src/app/components/WeeklyCalendar.tsx:80-85 | over ranges that tile, if the range at `k` holds today, then earlier ranges are past and later ones future |
| `WeeklyCalendar.StatusesInYear` | src/app/components/WeeklyCalendar.tsx:65-85 | when today is in the year, weeks before today's week are past, today's week is current and later weeks are future |
| `WeeklyCalendar.StatusesAroundToday` | src/app/components/WeeklyCalendar.tsx:65-85 | as above when today is in the year; before the year every week is future, and after it every week is past |
| `WeeklyCalendar.AtMostOneCurrent` | src/app/components/WeeklyCalendar.tsx:65-68 | no two weeks are current at once, and some week is current iff today lies in the year |
| `WeeklyCalendar.SameBoundsSameTable` | src/app/components/WeeklyCalendar.tsx:53-59 | the table depends on `year` only through the year's first and last day |
| `WeeklyCalendar.TwoDigitYearsAlias` | src/app/components/WeeklyCalendar.tsx:20-21 | years 0–99 render the same table as 1900–1999 |
| `WeeklyCalendar.Year2025` | tests/weekly-calendar.spec.ts:20-31 | 2025 begins on a Wednesday and has 53 weeks; week 1 runs from January 1 to January 5, the two days the expected label names |

## Left out

- Notes are not modelled: the per-week note store, loading and saving notes, the debounced save, the note modal, the recap view and the year picker. The tests use them, but none of the source files shown implements them.
- React state: `useState`, `useEffect` and `setWeeks` cache `WeekStarts(year)`. `Render` uses the list the effect computes for `year`, and `Table` takes the list in state as a parameter. The stale list on the render after a year change is modelled only as far as `StaleWeekListAfterYearChange` goes. The very first render, before the effect has run, has an empty list and no rows; it is not modelled.
- Presentation is not modelled: JSX, Tailwind class strings, the font, and the `format(…, 'M.d')` labels. The labels are represented only by the days they name (`Dates.CivilDay`).
- The wall clock: `new Date()` for `today` and for the default year. Both are parameters.
- Time of day, time zones and daylight-saving shifts are not modelled. Every comparison the component makes reduces to comparing whole days.
- JavaScript `Date` limits are not modelled: dates beyond ±100,000,000 days from 1970 give an invalid date, and a year that is not an integer or is NaN has no calendar day here. The model accepts every integer year.
- `Dates.EachWeekOfInterval` requires `start <= end`: the library's reversed-interval and `step` options are not modelled. The component always passes a year's start before its end and no step.
- `isWithinInterval` on an interval whose end comes before its start is not modelled. Such an interval does not arise once the week list belongs to `year` (`DisplayRangeWellFormed`). It does arise on the stale render after a year change (`StaleWeekListAfterYearChange`). What happens then depends on the date-fns version: version 2 throws a `RangeError`, and later versions sort the two ends. `Classify` compares the ends as given.
- The text the hover label renders is not modelled. `src/app/components/WeeklyCalendar.tsx:107` joins the two dates with " - ", so week 1 of 2025 reads "1.1 - 1.5". `Year2025` pins only the two days, January 1 and January 5.
