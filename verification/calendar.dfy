/** The proleptic Gregorian calendar as Python's `datetime.date` and the
    pandas datetime accessors use it: date validity with the leap-year rule,
    day counts, the weekday and its English name, and the calendar quarter. */
module Calendar {

  /** Python's `datetime.MINYEAR` and `datetime.MAXYEAR`. */
  const MinYear := 1
  const MaxYear := 9999

  datatype Date = Date(year: int, month: int, day: int)

  /** Every fourth year is a leap year, except centuries not divisible by 400. */
  predicate IsLeapYear(y: int)
  {
    y % 4 == 0 && (y % 100 != 0 || y % 400 == 0)
  }

  function DaysInMonth(y: int, m: int): (n: int)
    requires 1 <= m <= 12
    ensures 28 <= n <= 31
    ensures n == 29 <==> m == 2 && IsLeapYear(y)
    ensures n == 28 <==> m == 2 && !IsLeapYear(y)
    ensures n == 30 <==> m == 4 || m == 6 || m == 9 || m == 11
  {
    if m == 2 then (if IsLeapYear(y) then 29 else 28)
    else if m == 4 || m == 6 || m == 9 || m == 11 then 30
    else 31
  }

  predicate ValidDate(d: Date)
  {
    && MinYear <= d.year <= MaxYear
    && 1 <= d.month <= 12
    && 1 <= d.day <= DaysInMonth(d.year, d.month)
  }

  function YearLength(y: int): int
  {
    if IsLeapYear(y) then 366 else 365
  }

  /** Days in the years before `y`, by the closed form Python uses. */
  function DaysBeforeYear(y: int): int
    requires y >= 1
  {
    var p := y - 1;
    p * 365 + p / 4 - p / 100 + p / 400
  }

  /** Days in the years before `y`, counted year by year. */
  function DaysBeforeYearCounted(y: int): int
    requires y >= 1
    decreases y
  {
    if y == 1 then 0 else DaysBeforeYearCounted(y - 1) + YearLength(y - 1)
  }

  /** One more year adds exactly that year's length to the closed form. */
  lemma DaysBeforeYearStep(y: int)
    requires y >= 1
    ensures DaysBeforeYear(y + 1) == DaysBeforeYear(y) + YearLength(y)
  {
    assert y / 4 == (y - 1) / 4 + (if y % 4 == 0 then 1 else 0);
    assert y / 100 == (y - 1) / 100 + (if y % 100 == 0 then 1 else 0);
    assert y / 400 == (y - 1) / 400 + (if y % 400 == 0 then 1 else 0);
  }

  /** The closed form agrees with counting the days of every earlier year. */
  lemma {:induction false} DaysBeforeYearIsCount(y: int)
    requires y >= 1
    ensures DaysBeforeYear(y) == DaysBeforeYearCounted(y)
    decreases y
  {
    if y > 1 {
      DaysBeforeYearIsCount(y - 1);
      DaysBeforeYearStep(y - 1);
    }
  }

  /** Days in the months of year `y` before month `m`: a table for a common
      year, plus one day after February in a leap year. */
  function DaysBeforeMonth(y: int, m: int): int
    requires 1 <= m <= 12
  {
    var common := [0, 31, 59, 90, 120, 151, 181, 212, 243, 273, 304, 334][m - 1];
    common + (if m > 2 && IsLeapYear(y) then 1 else 0)
  }

  /** The table agrees with month lengths: one more month adds that month's
      days, and December ends the year. */
  lemma DaysBeforeMonthStep(y: int, m: int)
    requires 1 <= m <= 12
    ensures m < 12 ==> DaysBeforeMonth(y, m + 1) == DaysBeforeMonth(y, m) + DaysInMonth(y, m)
    ensures m == 12 ==> DaysBeforeMonth(y, m) + DaysInMonth(y, m) == YearLength(y)
  {
  }

  /** Day number of a date, 0001-01-01 being day 1 (Python's `toordinal`). */
  function Ordinal(d: Date): (n: int)
    requires ValidDate(d)
    ensures DaysBeforeYear(d.year) < n <= DaysBeforeYear(d.year) + YearLength(d.year)
  {
    DaysBeforeMonthStep(d.year, d.month);
    DaysBeforeMonthBounded(d.year, d.month);
    DaysBeforeYear(d.year) + DaysBeforeMonth(d.year, d.month) + d.day
  }

  lemma DaysBeforeMonthBounded(y: int, m: int)
    requires 1 <= m <= 12
    ensures DaysBeforeMonth(y, m) + DaysInMonth(y, m) <= YearLength(y)
  {
  }

  /** The day after `d`; there is none after 9999-12-31. */
  function NextDay(d: Date): (r: Date)
    requires ValidDate(d) && d != Date(MaxYear, 12, 31)
    ensures ValidDate(r)
  {
    if d.day < DaysInMonth(d.year, d.month) then Date(d.year, d.month, d.day + 1)
    else if d.month < 12 then Date(d.year, d.month + 1, 1)
    else Date(d.year + 1, 1, 1)
  }

  /** Consecutive dates have consecutive day numbers. */
  lemma OrdinalNextDay(d: Date)
    requires ValidDate(d) && d != Date(MaxYear, 12, 31)
    ensures Ordinal(NextDay(d)) == Ordinal(d) + 1
  {
    DaysBeforeMonthStep(d.year, d.month);
    if d.day == DaysInMonth(d.year, d.month) && d.month == 12 {
      DaysBeforeYearStep(d.year);
    }
  }

  /** Chronological order of dates. */
  predicate Before(a: Date, b: Date)
  {
    || a.year < b.year
    || (a.year == b.year && a.month < b.month)
    || (a.year == b.year && a.month == b.month && a.day < b.day)
  }

  lemma DaysBeforeYearMonotone(y: int, z: int)
    requires 1 <= y <= z
    ensures DaysBeforeYear(y) + (z - y) * 365 <= DaysBeforeYear(z)
    decreases z - y
  {
    if y < z {
      DaysBeforeYearMonotone(y, z - 1);
      DaysBeforeYearStep(z - 1);
    }
  }

  lemma DaysBeforeMonthMonotone(y: int, m: int, n: int)
    requires 1 <= m < n <= 12
    ensures DaysBeforeMonth(y, m) + DaysInMonth(y, m) <= DaysBeforeMonth(y, n)
  {
  }

  /** Later dates have larger day numbers, so the day number is one-to-one. */
  lemma OrdinalIncreasing(a: Date, b: Date)
    requires ValidDate(a) && ValidDate(b)
    requires Before(a, b)
    ensures Ordinal(a) < Ordinal(b)
  {
    if a.year < b.year {
      DaysBeforeYearStep(a.year);
      DaysBeforeYearMonotone(a.year + 1, b.year);
    } else if a.month < b.month {
      DaysBeforeMonthMonotone(a.year, a.month, b.month);
    }
  }

  lemma OrdinalInjective(a: Date, b: Date)
    requires ValidDate(a) && ValidDate(b)
    requires Ordinal(a) == Ordinal(b)
    ensures a == b
  {
    if Before(a, b) {
      OrdinalIncreasing(a, b);
    } else if Before(b, a) {
      OrdinalIncreasing(b, a);
    }
  }

  /** The Unix epoch, 1970-01-01, a Thursday. */
  const Epoch := Date(1970, 1, 1)

  function DaysSinceEpoch(d: Date): int
    requires ValidDate(d)
  {
    Ordinal(d) - Ordinal(Epoch)
  }

  /** Day of the week, Monday being 0 and Sunday 6, counted from the epoch's
      Thursday. */
  function Weekday(d: Date): (w: int)
    requires ValidDate(d)
    ensures 0 <= w < 7
  {
    (DaysSinceEpoch(d) + 3) % 7
  }

  /** English weekday names, Monday first, as pandas' `day_name` gives them. */
  const DayNames: seq<string> :=
    ["Monday", "Tuesday", "Wednesday", "Thursday", "Friday", "Saturday", "Sunday"]

  function DayName(d: Date): (name: string)
    requires ValidDate(d)
    ensures name in DayNames
  {
    DayNames[Weekday(d)]
  }

  /** Each day's weekday follows the previous day's, wrapping after Sunday. */
  lemma WeekdayNextDay(d: Date)
    requires ValidDate(d) && d != Date(MaxYear, 12, 31)
    ensures Weekday(NextDay(d)) == (Weekday(d) + 1) % 7
  {
    OrdinalNextDay(d);
    var x := DaysSinceEpoch(d) + 3;
    assert DaysSinceEpoch(NextDay(d)) + 3 == x + 1;
    ModSevenSuccessor(x);
  }

  lemma ModSevenSuccessor(x: int)
    ensures (x + 1) % 7 == (x % 7 + 1) % 7
  {
  }

  lemma WeekdayExamples()
    ensures DayName(Epoch) == "Thursday"
    ensures DayName(Date(2005, 5, 24)) == "Tuesday"
    ensures DayName(Date(2005, 5, 25)) == "Wednesday"
  {
    assert Ordinal(Epoch) == 719163;
    assert Ordinal(Date(2005, 5, 24)) == 732090;
    assert Ordinal(Date(2005, 5, 25)) == 732091;
  }

  /** Membership of a weekday name in ["Saturday", "Sunday"]. */
  predicate IsWeekendName(name: string)
  {
    name == "Saturday" || name == "Sunday"
  }

  /** A date's name is a weekend name exactly on the last two days of the
      week. */
  lemma WeekendIsSaturdayOrSunday(d: Date)
    requires ValidDate(d)
    ensures IsWeekendName(DayName(d)) <==> Weekday(d) >= 5
  {
  }

  /** Calendar quarter of a month, pandas' `dt.quarter`. */
  function Quarter(m: int): (q: int)
    requires 1 <= m <= 12
    ensures 1 <= q <= 4
    ensures 3 * q - 2 <= m <= 3 * q
  {
    (m - 1) / 3 + 1
  }

  lemma QuarterMonotone(m: int, n: int)
    requires 1 <= m <= n <= 12
    ensures Quarter(m) <= Quarter(n)
  {
  }

  const NanosPerDay := 86_400_000_000_000

  /** A calendar date with a time of day in nanoseconds since midnight. */
  datatype DateTime = DateTime(date: Date, nanoOfDay: int)

  /** A well-formed timestamp: a valid date and a time within that day. */
  type Timestamp = t: DateTime | ValidDate(t.date) && 0 <= t.nanoOfDay < NanosPerDay
    witness DateTime(Date(1970, 1, 1), 0)

  /** Truncation of a timestamp to its calendar date (`dt.date`). */
  function DateOf(t: Timestamp): (d: Date)
    ensures ValidDate(d)
  {
    t.date
  }
}
