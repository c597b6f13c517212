/** The year-progress widget: a grid of 365 dots, one per day of 2026, where every day that
    has begun is shown as past, and a count of the days of 2026 still to come.

    `now` is an instant in milliseconds on the local timeline of module Calendar; a JavaScript
    `Date` object of the page is modelled by its millisecond value, and the grid's dot elements
    by an array of flags, `true` where the dot carries the class "past". */
module YearProgress {
  import opened Calendar

  /** The number of dots in the grid, one for each day of 2026. */
  const DotCount: int := 365

  /** The calendar fields of instant `t`, as the getters of a JavaScript `Date` give them. */
  function LocalDate(t: int): CivilDate {
    CivilFromDays(t / MsPerDay)
  }

  /** The year the JavaScript `Date` constructor takes its year argument to mean: one from
      0 to 99 is read as a year of the 1900s. */
  function ConstructorYear(year: int): int {
    if 0 <= year <= 99 then 1900 + year else year
  }

  /** `new Date(year, monthIndex, day)`: local midnight of the date, with the month counted
      from 0 for January. */
  function NewDate(year: int, monthIndex: int, day: int): (t: int)
    requires 0 <= monthIndex < 12
    ensures t % MsPerDay == 0
  {
    DaysFromCivil(ConstructorYear(year), monthIndex + 1, day) * MsPerDay
  }

  /** A JavaScript `Date` built from the fields of a valid date reads back that date, with
      the year the constructor took its year argument to mean: a year from 0 to 99 reads
      back as a year of the 1900s. */
  lemma LocalDateOfNewDate(year: int, monthIndex: int, day: int)
    requires 0 <= monthIndex < 12 && ValidDate(CivilDate(ConstructorYear(year), monthIndex + 1, day))
    ensures LocalDate(NewDate(year, monthIndex, day)) == CivilDate(ConstructorYear(year), monthIndex + 1, day)
  {
    var y := ConstructorYear(year);
    var n := DaysFromCivil(y, monthIndex + 1, day);
    assert NewDate(year, monthIndex, day) / MsPerDay == n;
    CivilFromDaysOfDaysFromCivil(CivilDate(y, monthIndex + 1, day));
  }

  /** Local midnight of the day instant `t` falls on. */
  function StartOfDay(t: int): (r: int)
    ensures r <= t < r + MsPerDay
    ensures r % MsPerDay == 0
  {
    t - t % MsPerDay
  }

  /** `startOfDay` builds a new JavaScript `Date` from the year, month and day of `t`; when
      that year is not one from 0 to 99, that `Date` is `StartOfDay(t)`, and it lies on the
      same calendar day as `t`. */
  lemma StartOfDayFromFields(t: int)
    requires !(0 <= LocalDate(t).year <= 99)
    ensures var date := LocalDate(t);
      1 <= date.month <= 12 && StartOfDay(t) == NewDate(date.year, date.month - 1, date.day)
    ensures LocalDate(StartOfDay(t)) == LocalDate(t)
  {
    DaysFromCivilOfCivilFromDays(t / MsPerDay);
    assert StartOfDay(t) / MsPerDay == t / MsPerDay;
  }

  /** Taking the start of a day twice changes nothing. */
  lemma StartOfDayIdempotent(t: int)
    ensures StartOfDay(StartOfDay(t)) == StartOfDay(t)
  {
  }

  /** A midnight has passed by instant `t` exactly when it has passed by the start of the
      day of `t`. */
  lemma MidnightPassed(m: int, t: int)
    requires m % MsPerDay == 0
    ensures m <= t <==> m <= StartOfDay(t)
  {
    var r := StartOfDay(t);
    var k, j := m / MsPerDay, r / MsPerDay;
    assert m == k * MsPerDay && r == j * MsPerDay;
    if m <= t {
      assert k * MsPerDay < (j + 1) * MsPerDay;
      assert k <= j;
    }
  }

  /** Two instants have the same start of day exactly when they have the same calendar fields. */
  lemma SameDayIffSameStart(a: int, b: int)
    ensures StartOfDay(a) == StartOfDay(b) <==> LocalDate(a) == LocalDate(b)
  {
    assert StartOfDay(a) == a / MsPerDay * MsPerDay;
    assert StartOfDay(b) == b / MsPerDay * MsPerDay;
    CivilFromDaysInjective(a / MsPerDay, b / MsPerDay);
  }

  /** Local midnight on 1 January 2026 and on 1 January 2027. */
  const Start2026: int := NewDate(2026, 0, 1)
  const Start2027: int := NewDate(2027, 0, 1)

  /** 1 January 2026 is day 20454 after 1 January 1970, and 1 January 2027 is day 20819. */
  lemma NewYearDayNumbers()
    ensures DaysFromCivil(2026, 1, 1) == 20454 && DaysFromCivil(2027, 1, 1) == 20819
    ensures Start2026 == 20454 * MsPerDay && Start2027 == 20819 * MsPerDay
  {
  }

  /** 2026 is not a leap year: its first and last midnights are 365 days apart. */
  lemma Year2026Has365Days()
    ensures Start2027 - Start2026 == DotCount * MsPerDay
  {
    NewYearToNewYear(2026);
  }

  /** How many dots are filled and how many days are left. */
  datatype Progress = Progress(filled: int, daysLeft: int)

  /** The zero-based index in 2026 of the day `now` falls on (`Math.floor` of the day
      difference: Dafny's division by a positive number rounds down). */
  function DayIndex(now: int): int {
    (StartOfDay(now) - Start2026) / MsPerDay
  }

  /** The day index counts whole days: the start of the day of `now` is exactly
      `DayIndex(now)` days after `start2026`, with nothing lost to rounding. */
  lemma DayIndexExact(now: int)
    ensures StartOfDay(now) == Start2026 + DayIndex(now) * MsPerDay
  {
    NewYearDayNumbers();
    var j := StartOfDay(now) / MsPerDay;
    DivModUnique(StartOfDay(now), MsPerDay, j, 0);
    assert StartOfDay(now) - Start2026 == (j - 20454) * MsPerDay;
    DivModUnique(StartOfDay(now) - Start2026, MsPerDay, j - 20454, 0);
  }

  /** Within 2026, `now` is an instant of the year 2026, so the `todayStart` that
      `startOfDay(now)` builds from its fields is `StartOfDay(now)`: the two-digit reading
      of the year never applies in `update`. */
  lemma TodayStartIn2026(now: int)
    requires Start2026 <= now < Start2027
    ensures LocalDate(now).year == 2026
    ensures var date := LocalDate(now);
      1 <= date.month <= 12 && StartOfDay(now) == NewDate(date.year, date.month - 1, date.day)
  {
    NewYearDayNumbers();
    assert 20454 <= now / MsPerDay < 20819;
    YearOfDay(now / MsPerDay, 2026);
    StartOfDayFromFields(now);
  }

  /** Within 2026 the day index lies in [0, 364]: there is a dot for every day. */
  lemma DayIndexInYear(now: int)
    requires Start2026 <= now < Start2027
    ensures 0 <= DayIndex(now) < DotCount
  {
    NewYearDayNumbers();
    MidnightPassed(Start2026, now);
    DayIndexExact(now);
  }

  /** The progress arithmetic of `update`: nothing filled before 2026, every dot filled from
      2027 on, and within 2026 the dots up to and including today's. */
  function ProgressAt(now: int): (p: Progress)
    ensures now < Start2026 ==> p == Progress(0, DotCount)
    ensures now >= Start2027 ==> p == Progress(DotCount, 0)
    ensures Start2026 <= now < Start2027 ==> 0 <= DayIndex(now) < DotCount && p.filled == DayIndex(now) + 1
    ensures p.filled + p.daysLeft == DotCount
    ensures 0 <= p.filled <= DotCount && 0 <= p.daysLeft <= DotCount
  {
    if now >= Start2026 && now < Start2027 then
      var dayIndex := DayIndex(now);
      DayIndexInYear(now);
      Progress(dayIndex + 1, DotCount - (dayIndex + 1))
    else if now >= Start2027 then
      Progress(DotCount, 0)
    else
      Progress(0, DotCount)
  }

  /** Local midnight at the start of the day that dot `i` stands for. */
  function DotStart(i: int): int {
    Start2026 + i * MsPerDay
  }

  /** Dot `i` of the grid begins on day number `20454 + i`, at a midnight, and its day index is `i`. */
  lemma DotStartDay(i: int)
    ensures DotStart(i) / MsPerDay == 20454 + i && DotStart(i) % MsPerDay == 0
    ensures DayIndex(DotStart(i)) == i
  {
    NewYearDayNumbers();
    assert DotStart(i) == (20454 + i) * MsPerDay;
    DivModUnique(DotStart(i), MsPerDay, 20454 + i, 0);
    DayIndexExact(DotStart(i));
  }

  /** The dot state `update` computes: dot `i` is past exactly when the day it stands for
      has begun by `now`, in each of the three cases. */
  lemma PastIffDayBegun(now: int, i: int)
    requires 0 <= i < DotCount
    ensures i < ProgressAt(now).filled <==> DotStart(i) <= now
  {
    NewYearDayNumbers();
    if Start2026 <= now < Start2027 {
      DotStartDay(i);
      MidnightPassed(DotStart(i), now);
      DayIndexExact(now);
    }
  }

  /** The number of filled dots never decreases as time goes on. */
  lemma FilledMonotone(a: int, b: int)
    requires a <= b
    ensures ProgressAt(a).filled <= ProgressAt(b).filled
  {
    var fb := ProgressAt(b).filled;
    if fb < ProgressAt(a).filled {
      PastIffDayBegun(a, fb);
      PastIffDayBegun(b, fb);
    }
  }

  /** Two instants in the same day (with the same start of day) give the same progress. */
  lemma SameStartSameProgress(a: int, b: int)
    requires StartOfDay(a) == StartOfDay(b)
    ensures ProgressAt(a) == ProgressAt(b)
  {
    var fa, fb := ProgressAt(a).filled, ProgressAt(b).filled;
    if fa != fb {
      var i := if fa < fb then fa else fb;
      PastIffDayBegun(a, i);
      PastIffDayBegun(b, i);
      DotStartDay(i);
      MidnightPassed(DotStart(i), a);
      MidnightPassed(DotStart(i), b);
    }
  }

  /** Two instants on the same calendar day give the same progress. */
  lemma SameDaySameProgress(a: int, b: int)
    requires LocalDate(a) == LocalDate(b)
    ensures ProgressAt(a) == ProgressAt(b)
  {
    SameDayIffSameStart(a, b);
    SameStartSameProgress(a, b);
  }

  /** The day that begins at `DotStart(i)` is the day of 2026 whose day of the year is `i`. */
  lemma DotStartDate(i: int)
    requires 0 <= i < DotCount
    ensures var d := LocalDate(DotStart(i));
      ValidDate(d) && d.year == 2026 && DaysBeforeMonth(2026, d.month) + d.day - 1 == i
  {
    DotStartDay(i);
    DayOfYear2026(20454 + i);
  }

  /** Day number `z` of 2026 falls on the valid date of 2026 whose day of the year is
      `z - 20454`. */
  lemma DayOfYear2026(z: int)
    requires 20454 <= z < 20454 + DotCount
    ensures var d := CivilFromDays(z);
      ValidDate(d) && d.year == 2026 && DaysBeforeMonth(2026, d.month) + d.day - 1 == z - 20454
  {
    NewYearDayNumbers();
    YearOfDay(z, 2026);
    var d := CivilFromDays(z);
    DaysFromCivilOfCivilFromDays(z);
    DaysFromNewYear(2026, d.month, d.day);
  }

  /** A valid date of 2026 is day number `20454 + i`, where `i` in [0, 364] is its day of
      the year. */
  lemma DayNumberIn2026(m: int, d: int)
    requires ValidDate(CivilDate(2026, m, d))
    ensures var i := DaysBeforeMonth(2026, m) + d - 1;
      0 <= i < DotCount && DaysFromCivil(2026, m, d) == 20454 + i
  {
    DaysFromNewYear(2026, m, d);
    DateWithinYear(CivilDate(2026, m, d));
    NewYearToNewYear(2026);
  }

  /** The midnight of day number `20454 + i` is the start of dot `i`. */
  lemma DotStartAtDayNumber(n: int, i: int)
    requires n == 20454 + i
    ensures n * MsPerDay == DotStart(i) && DayIndex(DotStart(i)) == i
  {
    NewYearDayNumbers();
    DotStartDay(i);
  }

  /** The midnight `new Date(2026, m - 1, d)` of a valid date of 2026 is the start of the day
      of the dot whose index is the date's day of the year, and that is its day index. */
  lemma DayIndexOfDate(m: int, d: int)
    requires ValidDate(CivilDate(2026, m, d))
    ensures var i := DaysBeforeMonth(2026, m) + d - 1;
      0 <= i < DotCount && NewDate(2026, m - 1, d) == DotStart(i) && DayIndex(DotStart(i)) == i
  {
    DayNumberIn2026(m, d);
    var i := DaysBeforeMonth(2026, m) + d - 1;
    assert ConstructorYear(2026) == 2026;
    assert NewDate(2026, m - 1, d) == DaysFromCivil(2026, m, d) * MsPerDay;
    DotStartAtDayNumber(DaysFromCivil(2026, m, d), i);
  }

  /** Every date of 2026 has its own dot, and the day of that dot is that date. */
  lemma DotOfDate(m: int, d: int)
    requires ValidDate(CivilDate(2026, m, d))
    ensures 0 <= DaysBeforeMonth(2026, m) + d - 1 < DotCount
    ensures LocalDate(DotStart(DaysBeforeMonth(2026, m) + d - 1)) == CivilDate(2026, m, d)
  {
    DayIndexOfDate(m, d);
    LocalDateOfNewDate(2026, m - 1, d);
  }

  /** Worked example: at 10:00 on 2 March 2026 (31 days of January and 28 of February
      before it) the day index is 60, 61 dots are filled and 304 days are left. */
  lemma ExampleSecondOfMarch()
    ensures var now := NewDate(2026, 2, 2) + 10 * 60 * 60 * 1000;
      DayIndex(now) == 60 && ProgressAt(now) == Progress(61, 304)
  {
    var now := NewDate(2026, 2, 2) + 10 * 60 * 60 * 1000;
    DayIndexOfDate(3, 2);
    assert DaysBeforeMonth(2026, 3) == 59;
    DotStartDay(60);
    DivModUnique(now, MsPerDay, 20454 + 60, 10 * 60 * 60 * 1000);
    assert StartOfDay(now) == DotStart(60);
    NewYearDayNumbers();
  }

  /** Worked example: at midnight on 1 January 2027 every dot is filled and no day is left. */
  lemma ExampleNewYear2027()
    ensures ProgressAt(NewDate(2027, 0, 1)) == Progress(365, 0)
  {
  }

  /** Worked example: at 23:59:59 on 31 December 2025 no dot is filled and 365 days are left. */
  lemma ExampleNewYearsEve2025()
    ensures ProgressAt(NewDate(2025, 11, 31) + ((23 * 60 + 59) * 60 + 59) * 1000) == Progress(0, 365)
  {
    DaysFromNewYear(2025, 12, 31);
    NewYearToNewYear(2025);
  }
}
