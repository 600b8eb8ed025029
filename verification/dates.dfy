/**
  Day-granular model of the calendar operations the weekly calendar borrows
  from JavaScript's `Date` and from date-fns.

  A moment is reduced to the calendar day it falls on, counted in the
  proleptic Gregorian calendar with 1970-01-01 as day 0. The calendar only
  ever compares start-of-day moments with each other and with the last
  millisecond of a year, so no comparison it makes depends on the time of day.
 */
module Dates {

  /** A calendar day; day 0 is 1970-01-01. */
  type Day = int

  /** A day of the week in JavaScript's `getDay` numbering: 0 is Sunday, 6 is Saturday. */
  type Weekday = d: int | 0 <= d < 7

  const SUNDAY: Weekday := 0
  const MONDAY: Weekday := 1
  const WEDNESDAY: Weekday := 3
  const THURSDAY: Weekday := 4
  const SATURDAY: Weekday := 6

  // ---------------------------------------------------------------------------
  // Years
  // ---------------------------------------------------------------------------

  predicate IsLeapYear(y: int) {
    y % 4 == 0 && (y % 100 != 0 || y % 400 == 0)
  }

  function DaysInYear(y: int): int {
    if IsLeapYear(y) then 366 else 365
  }

  /**
    The day of January 1 of year `y`. The days from 0001-01-01 to January 1
    of `y` are 365 per elapsed year plus one per elapsed leap year; Dafny's
    `/` floors for a positive divisor, so the count is right for every
    integer year, before year 1 included.
   */
  function Jan1(y: int): Day {
    var p := y - 1;
    365 * p + p / 4 - p / 100 + p / 400 - 719162
  }

  /** The day of December 31 of year `y`: the last of the year's days counted from January 1. */
  function Dec31(y: int): (d: Day)
    ensures d == Jan1(y) + DaysInYear(y) - 1
  {
    YearLength(y);
    Jan1(y + 1) - 1
  }

  /** Consecutive New Year's days are a year's length apart. */
  lemma YearLength(y: int)
    ensures Jan1(y + 1) - Jan1(y) == DaysInYear(y)
  {
    var p := y - 1;
    FloorStep(p, 4);
    FloorStep(p, 100);
    FloorStep(p, 400);
    assert Jan1(y + 1) - Jan1(y) == 365 + (y / 4 - p / 4) - (y / 100 - p / 100) + (y / 400 - p / 400);
  }

  /** A positive multiple of `m` is at least `m`. */
  lemma {:induction false} MulMonotone(m: int, k: int)
    requires m > 0 && k >= 1
    ensures m * k >= m
    decreases k
  {
    if k > 1 {
      MulMonotone(m, k - 1);
      assert m * k == m * (k - 1) + m;
    }
  }

  /** Euclidean division has one quotient and one remainder. */
  lemma DivUnique(n: int, m: int, q: int, r: int)
    requires m > 0 && n == m * q + r && 0 <= r < m
    ensures n / m == q && n % m == r
  {
    var q', r' := n / m, n % m;
    assert n == m * q' + r' && 0 <= r' < m;
    assert m * (q - q') == m * q - m * q';
    if q > q' {
      MulMonotone(m, q - q');
    } else if q < q' {
      assert m * (q' - q) == m * q' - m * q;
      MulMonotone(m, q' - q);
    }
  }

  /** Counting up by one day passes a multiple of `m` exactly when it lands on one. */
  lemma FloorStep(p: int, m: int)
    requires m > 0
    ensures (p + 1) / m == p / m + (if (p + 1) % m == 0 then 1 else 0)
  {
    var q, r := p / m, p % m;
    assert p == m * q + r && 0 <= r < m;
    if r == m - 1 {
      DivUnique(p + 1, m, q + 1, 0);
    } else {
      DivUnique(p + 1, m, q, r + 1);
    }
  }

  /** A later year begins at least a common year's length later. */
  lemma {:induction false} Jan1Increasing(a: int, b: int)
    requires a < b
    ensures Jan1(a) + 365 <= Jan1(b)
    decreases b - a
  {
    YearLength(a);
    if a + 1 < b {
      Jan1Increasing(a + 1, b);
    }
  }

  /**
    Reference definition of January 1 by counting whole years away from the
    epoch year 1970, one year length at a time.
   */
  function CountedJan1(y: int): Day
    decreases if y < 1970 then 1970 - y else y - 1970
  {
    if y == 1970 then 0
    else if y > 1970 then CountedJan1(y - 1) + DaysInYear(y - 1)
    else CountedJan1(y + 1) - DaysInYear(y)
  }

  /** The closed formula agrees with counting years from the epoch. */
  lemma {:induction false} Jan1IsCounted(y: int)
    ensures Jan1(y) == CountedJan1(y)
    decreases if y < 1970 then 1970 - y else y - 1970
  {
    if y > 1970 {
      Jan1IsCounted(y - 1);
      YearLength(y - 1);
    } else if y < 1970 {
      Jan1IsCounted(y + 1);
      YearLength(y);
    }
  }

  // ---------------------------------------------------------------------------
  // Months (used to name concrete days)
  // ---------------------------------------------------------------------------

  function DaysInMonth(y: int, month: int): int
    requires 1 <= month <= 12
  {
    if month == 2 then (if IsLeapYear(y) then 29 else 28)
    else if month == 4 || month == 6 || month == 9 || month == 11 then 30
    else 31
  }

  /** Days of year `y` that come before the first of `month`; month 13 stands for the next January. */
  function DaysBeforeMonth(y: int, month: int): int
    requires 1 <= month <= 13
  {
    var common := [0, 31, 59, 90, 120, 151, 181, 212, 243, 273, 304, 334, 365][month - 1];
    if month > 2 && IsLeapYear(y) then common + 1 else common
  }

  /** The cumulative table agrees with the month lengths and sums to the year's length. */
  lemma MonthsTileTheYear(y: int, month: int)
    requires 1 <= month <= 12
    ensures DaysBeforeMonth(y, month + 1) == DaysBeforeMonth(y, month) + DaysInMonth(y, month)
    ensures DaysBeforeMonth(y, 13) == DaysInYear(y)
  {
  }

  /** The day numbered `month`.`dayOfMonth` of year `y` (month 1 is January). */
  function CivilDay(y: int, month: int, dayOfMonth: int): (d: Day)
    requires 1 <= month <= 12 && 1 <= dayOfMonth <= DaysInMonth(y, month)
    ensures Jan1(y) <= d <= Dec31(y)
  {
    YearLength(y);
    MonthsTileTheYear(y, month);
    Jan1(y) + DaysBeforeMonth(y, month) + dayOfMonth - 1
  }

  // ---------------------------------------------------------------------------
  // Weekdays
  // ---------------------------------------------------------------------------

  /** `getDay`: 1970-01-01 was a Thursday. */
  function DayOfWeek(d: Day): Weekday {
    (d + THURSDAY) % 7
  }

  /** Weekdays repeat every seven days. */
  lemma WeekdayPeriod(d: Day)
    ensures DayOfWeek(d + 7) == DayOfWeek(d)
  {
    var q := (d + THURSDAY) / 7;
    assert d + THURSDAY == 7 * q + DayOfWeek(d);
    assert d + 7 + THURSDAY == 7 * (q + 1) + DayOfWeek(d);
  }

  /** Moving `k` days moves the weekday by `k`, modulo 7. */
  lemma WeekdayShift(d: Day, k: int)
    ensures DayOfWeek(d + k) == (DayOfWeek(d) + k) % 7
  {
    var q, r := (d + THURSDAY) / 7, (DayOfWeek(d) + k) / 7;
    assert d + THURSDAY == 7 * q + DayOfWeek(d);
    assert DayOfWeek(d) + k == 7 * r + (DayOfWeek(d) + k) % 7;
    assert d + k + THURSDAY == 7 * (q + r) + (DayOfWeek(d) + k) % 7;
  }

  /** Two days share a weekday exactly when they are a whole number of weeks apart. */
  lemma SameWeekdayApart(a: Day, b: Day)
    ensures DayOfWeek(a) == DayOfWeek(b) <==> (b - a) % 7 == 0
  {
    WeekdayShift(a, b - a);
    assert a + (b - a) == b;
  }

  /** `max([a, b])` of date-fns, over days. */
  function Max(a: Day, b: Day): (m: Day)
    ensures m >= a && m >= b && (m == a || m == b)
  {
    if a < b then b else a
  }

  /** `min([a, b])` of date-fns, over days. */
  function Min(a: Day, b: Day): (m: Day)
    ensures m <= a && m <= b && (m == a || m == b)
  {
    if a < b then a else b
  }

  /**
    date-fns `startOfWeek`: step back from `d` by the distance from the
    locale's first weekday to `d`'s weekday. The result is the one day of
    weekday `weekStartsOn` among the seven days ending at `d`.
   */
  function StartOfWeek(d: Day, weekStartsOn: Weekday): (s: Day)
    ensures s <= d < s + 7
    ensures DayOfWeek(s) == weekStartsOn
  {
    var day := DayOfWeek(d);
    var diff := (if day < weekStartsOn then 7 else 0) + day - weekStartsOn;
    var q := (d + THURSDAY) / 7;
    assert d + THURSDAY == 7 * q + day;
    assert d - diff + THURSDAY == 7 * (if day < weekStartsOn then q - 1 else q) + weekStartsOn;
    d - diff
  }

  /** Two days of the same weekday less than a week apart are the same day. */
  lemma SameWeekdayWithinAWeek(a: Day, b: Day)
    requires DayOfWeek(a) == DayOfWeek(b)
    requires a <= b < a + 7
    ensures a == b
  {
    var qa, qb := (a + THURSDAY) / 7, (b + THURSDAY) / 7;
    assert a + THURSDAY == 7 * qa + DayOfWeek(a);
    assert b + THURSDAY == 7 * qb + DayOfWeek(b);
  }

  /** `StartOfWeek` is the only day with its two properties. */
  lemma StartOfWeekIsUnique(d: Day, weekStartsOn: Weekday, s: Day)
    requires s <= d < s + 7 && DayOfWeek(s) == weekStartsOn
    ensures s == StartOfWeek(d, weekStartsOn)
  {
    var t := StartOfWeek(d, weekStartsOn);
    if s <= t {
      SameWeekdayWithinAWeek(s, t);
    } else {
      SameWeekdayWithinAWeek(t, s);
    }
  }

  /** A day that is itself a week start is its own week's start; later days have later starts. */
  lemma StartOfWeekMonotone(a: Day, b: Day, weekStartsOn: Weekday)
    requires a <= b
    ensures StartOfWeek(a, weekStartsOn) <= StartOfWeek(b, weekStartsOn)
    ensures DayOfWeek(a) == weekStartsOn ==> StartOfWeek(a, weekStartsOn) == a
  {
    var sa, sb := StartOfWeek(a, weekStartsOn), StartOfWeek(b, weekStartsOn);
    if sb < sa {
      SameWeekdayWithinAWeek(sb, sa);
    }
    if DayOfWeek(a) == weekStartsOn {
      StartOfWeekIsUnique(a, weekStartsOn, a);
    }
  }

  // ---------------------------------------------------------------------------
  // Weeks of an interval
  // ---------------------------------------------------------------------------

  /** The days `first`, `first + 7`, … that do not pass `last`. */
  function WeeksFrom(first: Day, last: Day): seq<Day>
    decreases if first <= last then last - first + 1 else 0
  {
    if first > last then [] else [first] + WeeksFrom(first + 7, last)
  }

  /** `WeeksFrom` is an arithmetic progression of step 7 that stops at the last term not after `last`. */
  lemma {:induction false} WeeksFromIsProgression(first: Day, last: Day)
    ensures |WeeksFrom(first, last)| == if first <= last then (last - first) / 7 + 1 else 0
    ensures forall i :: 0 <= i < |WeeksFrom(first, last)| ==> WeeksFrom(first, last)[i] == first + 7 * i
    decreases if first <= last then last - first + 1 else 0
  {
    if first <= last {
      WeeksFromIsProgression(first + 7, last);
      var rest := WeeksFrom(first + 7, last);
      assert WeeksFrom(first, last) == [first] + rest;
      forall i | 1 <= i < |WeeksFrom(first, last)|
        ensures WeeksFrom(first, last)[i] == first + 7 * i
      {
        assert WeeksFrom(first, last)[i] == rest[i - 1];
      }
    }
  }

  /**
    date-fns `eachWeekOfInterval` for an interval given in chronological
    order: the week start of every week that meets `[start, end]`, from the
    week of `start` to the week of `end`.
   */
  function EachWeekOfInterval(start: Day, end: Day, weekStartsOn: Weekday): (weeks: seq<Day>)
    requires start <= end
    ensures |weeks| >= 1
    ensures weeks[0] == StartOfWeek(start, weekStartsOn)
    ensures weeks[|weeks| - 1] == StartOfWeek(end, weekStartsOn)
    ensures forall i :: 0 <= i < |weeks| ==> weeks[i] == weeks[0] + 7 * i
    ensures forall i :: 0 <= i < |weeks| ==> DayOfWeek(weeks[i]) == weekStartsOn
  {
    var first, last := StartOfWeek(start, weekStartsOn), StartOfWeek(end, weekStartsOn);
    StartOfWeekMonotone(start, end, weekStartsOn);
    WeeksFromIsProgression(first, last);
    var weeks := WeeksFrom(first, last);
    assert (last - first) % 7 == 0 by {
      assert DayOfWeek(first) == DayOfWeek(last);
    }
    forall i | 0 <= i < |weeks| ensures DayOfWeek(weeks[i]) == weekStartsOn {
      WeekdayRepeats(first, i);
    }
    weeks
  }

  /** Adding whole weeks keeps the weekday. */
  lemma {:induction false} WeekdayRepeats(d: Day, k: nat)
    ensures DayOfWeek(d + 7 * k) == DayOfWeek(d)
  {
    if k > 0 {
      WeekdayRepeats(d, k - 1);
      WeekdayPeriod(d + 7 * (k - 1));
      assert d + 7 * k == (d + 7 * (k - 1)) + 7;
    }
  }

  // ---------------------------------------------------------------------------
  // The JavaScript `Date` constructor
  // ---------------------------------------------------------------------------

  /**
    The year that `new Date(year, 0, 1)` denotes: JavaScript reads the years
    0 to 99 as 1900 to 1999.
   */
  function NewDateYear(year: int): (y: int)
    ensures 1900 <= y <= 1999 <==> 0 <= year <= 99 || 1900 <= year <= 1999
    ensures y % 100 == year % 100
    ensures !(0 <= year <= 99) ==> y == year
  {
    if 0 <= year <= 99 then 1900 + year else year
  }
}
