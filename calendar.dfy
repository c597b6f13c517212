/** The proleptic Gregorian calendar on a local timeline without daylight saving time.

    An instant is an integer count of milliseconds since 1970-01-01 00:00 local time.
    `CivilFromDays` gives the calendar fields of a day, as the getters of a JavaScript
    `Date` (`getFullYear`, `getMonth`, `getDate`) do, and `DaysFromCivil` counts the days
    from 1970-01-01 to a date; the constructor `new Date(y, m, d)` is modelled on top of it
    in module YearProgress. */
module Calendar {

  /** Milliseconds in one day: 24 * 60 * 60 * 1000. */
  const MsPerDay: int := 24 * 60 * 60 * 1000

  /** A calendar date; `month` runs from 1 (January) to 12. */
  datatype CivilDate = CivilDate(year: int, month: int, day: int)

  predicate IsLeapYear(y: int) {
    y % 4 == 0 && (y % 100 != 0 || y % 400 == 0)
  }

  function DaysInYear(y: int): int {
    if IsLeapYear(y) then 366 else 365
  }

  function DaysInMonth(y: int, m: int): int
    requires 1 <= m <= 12
  {
    if m == 2 then (if IsLeapYear(y) then 29 else 28)
    else if m == 4 || m == 6 || m == 9 || m == 11 then 30
    else 31
  }

  /** Days of year `y` that lie before the first of month `m` (`m == 13` gives the whole year). */
  function DaysBeforeMonth(y: int, m: int): int
    requires 1 <= m <= 13
  {
    if m == 1 then 0 else DaysBeforeMonth(y, m - 1) + DaysInMonth(y, m - 1)
  }

  predicate ValidDate(d: CivilDate) {
    1 <= d.month <= 12 && 1 <= d.day <= DaysInMonth(d.year, d.month)
  }

  /** Days from 1 March of year 0 of a 400-year era to 1 March of year `yoe` of it. */
  function StartOfYearOfEra(yoe: int): int {
    365 * yoe + yoe / 4 - yoe / 100
  }

  /** Number of days from 1970-01-01 to the date (`y`, `m`, `d`), counted in 400-year eras
      of years that start on 1 March (so that the leap day is the last day of its year).
      A day past the end of its month runs on into the next months, as the `Date`
      constructor does. */
  function DaysFromCivil(y: int, m: int, d: int): int
    requires 1 <= m <= 12
  {
    var y' := if m <= 2 then y - 1 else y;
    var era := y' / 400;
    var yoe := y' % 400;
    var mp := if m > 2 then m - 3 else m + 9;
    var doy := (153 * mp + 2) / 5 + d - 1;
    era * 146097 + StartOfYearOfEra(yoe) + doy - 719468
  }

  /** The year (from 1 March) of an era in which day `doe` of the era falls: the century
      within the era, the 4-year cycle within the century and the year within the cycle,
      where the last century of an era and the last year of a cycle have one day more. */
  function YearOfEra(doe: int): (yoe: int)
    requires 0 <= doe < 146097
    ensures 0 <= yoe < 400
    ensures StartOfYearOfEra(yoe) <= doe < StartOfYearOfEra(yoe) + DaysInYear(yoe + 1)
  {
    var c := if doe / 36524 < 3 then doe / 36524 else 3;
    var r := doe - 36524 * c;
    assert 0 <= r <= 36524;
    var q := r / 1461;
    var s := r % 1461;
    assert r == 1461 * q + s && 0 <= q <= 24;
    assert q == 24 && s == 1460 ==> c == 3;
    var w := if s / 365 < 3 then s / 365 else 3;
    assert 0 <= w <= 3 && 0 <= s - 365 * w <= 365;
    assert s - 365 * w == 365 ==> w == 3 && s == 1460;
    var yoe := 100 * c + 4 * q + w;
    assert yoe / 4 == 25 * c + q;
    assert yoe / 100 == c;
    yoe
  }

  /** Day `doy` of the year that starts on 1 March of year `y` falls in a real month and on
      a real day of that month (the month is found as `(5 * doy + 2) / 153` from March). */
  lemma MonthOfYearDay(doy: int, y: int)
    requires 0 <= doy < DaysInYear(y + 1)
    ensures var mp := (5 * doy + 2) / 153;
      var m := if mp < 10 then mp + 3 else mp - 9;
      0 <= mp < 12 && 1 <= doy - (153 * mp + 2) / 5 + 1 <= DaysInMonth(if m <= 2 then y + 1 else y, m)
  {
    var mp := (5 * doy + 2) / 153;
    assert 0 <= mp < 12;
    assert (153 * mp + 2) / 5 <= doy < (153 * (mp + 1) + 2) / 5;
    if mp == 11 {
      assert doy < 365 || IsLeapYear(y + 1);
    }
  }

  /** Adding a multiple `j * n` of a positive modulus `n` does not change the remainder. */
  lemma ModOfShift(j: int, k: int, n: int)
    requires 0 < n
    ensures (j * n + k) % n == k % n
  {
    var x := j * n + k;
    var q := k / n;
    assert k == q * n + k % n;
    assert x == (j + q) * n + k % n;
    assert 0 <= k % n < n;
    DivModUnique(x, n, j + q, k % n);
  }

  /** A multiple of `n` strictly between `-n` and `n` is zero. */
  lemma SmallMultiple(a: int, n: int)
    requires 0 < n
    ensures -n < a * n < n ==> a == 0
  {
    if a >= 1 {
      assert a * n == (a - 1) * n + n && (a - 1) * n >= 0;
    } else if a <= -1 {
      assert a * n == (a + 1) * n - n && (a + 1) * n <= 0;
    }
  }

  /** Division with remainder is unique. */
  lemma DivModUnique(x: int, n: int, q: int, r: int)
    requires 0 < n && x == q * n + r && 0 <= r < n
    ensures x / n == q && x % n == r
  {
    var q', r' := x / n, x % n;
    assert x == q' * n + r' && 0 <= r' < n;
    assert (q - q') * n == r' - r;
    SmallMultiple(q - q', n);
  }

  /** The leap-year rule repeats every 400 years. */
  lemma LeapYearPeriodic(era: int, k: int)
    ensures IsLeapYear(era * 400 + k) == IsLeapYear(k)
  {
    ModOfShift(era, k, 400);
    ModOfShift(era * 4, k, 100);
    ModOfShift(era * 100, k, 4);
    assert era * 4 * 100 == era * 400;
    assert era * 100 * 4 == era * 400;
  }

  /** The calendar date of day number `z` (days since 1970-01-01). */
  function CivilFromDays(z: int): (r: CivilDate)
    ensures ValidDate(r)
  {
    var z' := z + 719468;
    var era := z' / 146097;
    var doe := z' % 146097;
    var yoe := YearOfEra(doe);
    var doy := doe - StartOfYearOfEra(yoe);
    var y := era * 400 + yoe;
    var mp := (5 * doy + 2) / 153;
    var d := doy - (153 * mp + 2) / 5 + 1;
    var m := if mp < 10 then mp + 3 else mp - 9;
    LeapYearPeriodic(era, yoe + 1);
    MonthOfYearDay(doy, y);
    CivilDate(if m <= 2 then y + 1 else y, m, d)
  }

  /** Building a date back from the fields of day `z` gives day `z` again. */
  lemma DaysFromCivilOfCivilFromDays(z: int)
    ensures 1 <= CivilFromDays(z).month <= 12
    ensures DaysFromCivil(CivilFromDays(z).year, CivilFromDays(z).month, CivilFromDays(z).day) == z
  {
    var z' := z + 719468;
    var era := z' / 146097;
    var doe := z' % 146097;
    var yoe := YearOfEra(doe);
    var y := era * 400 + yoe;
    DivModUnique(y, 400, era, yoe);
  }

  /** Each year of an era (up to the last) begins one year's length after the one before. */
  lemma StartOfYearOfEraStep(a: int)
    requires 0 <= a < 399
    ensures StartOfYearOfEra(a + 1) == StartOfYearOfEra(a) + DaysInYear(a + 1)
  {
    assert (a + 1) / 4 - a / 4 == if (a + 1) % 4 == 0 then 1 else 0;
    assert (a + 1) / 100 - a / 100 == if (a + 1) % 100 == 0 then 1 else 0;
    assert (a + 1) % 400 != 0;
  }

  /** Years of an era do not overlap: year `b` starts after year `a < b` ends. */
  lemma {:induction false} StartOfYearOfEraMonotone(a: int, b: int)
    requires 0 <= a < b < 400
    ensures StartOfYearOfEra(a) + DaysInYear(a + 1) <= StartOfYearOfEra(b)
    decreases b - a
  {
    StartOfYearOfEraStep(b - 1);
    if a < b - 1 {
      StartOfYearOfEraMonotone(a, b - 1);
    }
  }

  /** The year of era of a day is the one year whose span contains it. */
  lemma YearOfEraUnique(doe: int, k: int)
    requires 0 <= k < 400
    requires StartOfYearOfEra(k) <= doe < StartOfYearOfEra(k) + DaysInYear(k + 1)
    ensures doe < 146097 && YearOfEra(doe) == k
  {
    if k < 399 {
      StartOfYearOfEraMonotone(k, 399);
    }
    var a := YearOfEra(doe);
    if a < k {
      StartOfYearOfEraMonotone(a, k);
    } else if k < a {
      StartOfYearOfEraMonotone(k, a);
    }
  }

  /** The converse of MonthOfYearDay: a valid day of a month, counted in the year that starts
      on 1 March of year `y'`, lies within that year and gives its month back. */
  lemma YearDayOfMonthDay(y': int, m: int, d: int)
    requires 1 <= m <= 12 && 1 <= d <= DaysInMonth(if m <= 2 then y' + 1 else y', m)
    ensures var mp := if m > 2 then m - 3 else m + 9;
      var doy := (153 * mp + 2) / 5 + d - 1;
      0 <= doy < DaysInYear(y' + 1) && (5 * doy + 2) / 153 == mp
  {
  }

  /** Taking the fields of the day a valid date denotes gives that date back: distinct
      valid dates denote distinct days. */
  lemma CivilFromDaysOfDaysFromCivil(date: CivilDate)
    requires ValidDate(date)
    ensures CivilFromDays(DaysFromCivil(date.year, date.month, date.day)) == date
  {
    var (y, m, d) := (date.year, date.month, date.day);
    var y' := if m <= 2 then y - 1 else y;
    var era := y' / 400;
    var yoe := y' % 400;
    var mp := if m > 2 then m - 3 else m + 9;
    var doy := (153 * mp + 2) / 5 + d - 1;
    YearDayOfMonthDay(y', m, d);
    assert era * 400 + yoe == y';
    DaysFromCivilSplit(y, m, d);
    CivilFromDaysAt(DaysFromCivil(y, m, d), era, yoe, doy);
  }

  /** The date of the day `doy` of year `yoe` of era `era` (years counted from 1 March). */
  lemma CivilFromDaysAt(z: int, era: int, yoe: int, doy: int)
    requires 0 <= yoe < 400 && 0 <= doy < DaysInYear(era * 400 + yoe + 1)
    requires z + 719468 == era * 146097 + StartOfYearOfEra(yoe) + doy
    ensures var mp := (5 * doy + 2) / 153;
      var m := if mp < 10 then mp + 3 else mp - 9;
      var y := era * 400 + yoe;
      CivilFromDays(z) == CivilDate(if m <= 2 then y + 1 else y, m, doy - (153 * mp + 2) / 5 + 1)
  {
    YearDayWithinEra(era, yoe, doy);
    DivModUnique(z + 719468, 146097, era, StartOfYearOfEra(yoe) + doy);
  }

  /** The day number of a date, shifted to count from 1 March of year 0, split into whole
      eras and the day of the era. */
  lemma DaysFromCivilSplit(y: int, m: int, d: int)
    requires 1 <= m <= 12
    ensures var y' := if m <= 2 then y - 1 else y;
      var mp := if m > 2 then m - 3 else m + 9;
      DaysFromCivil(y, m, d) + 719468
        == y' / 400 * 146097 + StartOfYearOfEra(y' % 400) + (153 * mp + 2) / 5 + d - 1
  {
  }

  /** Day `doy` of year `yoe` of an era, when it is a day of that year, is a day of the era,
      and the era's year of it is `yoe`. */
  lemma YearDayWithinEra(era: int, yoe: int, doy: int)
    requires 0 <= yoe < 400 && 0 <= doy < DaysInYear(era * 400 + yoe + 1)
    ensures 0 <= StartOfYearOfEra(yoe) + doy < 146097
    ensures YearOfEra(StartOfYearOfEra(yoe) + doy) == yoe
  {
    LeapYearPeriodic(era, yoe + 1);
    YearOfEraUnique(StartOfYearOfEra(yoe) + doy, yoe);
  }

  /** From 1 March of year `y - 1` to 1 March of year `y` there are as many days as year `y`
      has: the span holds February of year `y`. */
  lemma MarchToMarch(y: int)
    ensures DaysFromCivil(y, 3, 1) - DaysFromCivil(y - 1, 3, 1) == DaysInYear(y)
  {
    var era := (y - 1) / 400;
    var yoe := (y - 1) % 400;
    assert y - 1 == era * 400 + yoe;
    LeapYearPeriodic(era, yoe + 1);
    if yoe < 399 {
      assert y / 400 == era && y % 400 == yoe + 1;
      StartOfYearOfEraStep(yoe);
    } else {
      assert y / 400 == era + 1 && y % 400 == 0;
    }
  }

  /** Distinct days have distinct dates. */
  lemma CivilFromDaysInjective(x: int, y: int)
    ensures CivilFromDays(x) == CivilFromDays(y) <==> x == y
  {
    DaysFromCivilOfCivilFromDays(x);
    DaysFromCivilOfCivilFromDays(y);
  }

  /** From 1 January of year `y` to 1 January of year `y + 1` there are `DaysInYear(y)` days. */
  lemma NewYearToNewYear(y: int)
    ensures DaysFromCivil(y + 1, 1, 1) - DaysFromCivil(y, 1, 1) == DaysInYear(y)
  {
    MarchToMarch(y);
  }

  /** Days before month `m` (from March on), in the closed form of the March-based count. */
  lemma {:induction false} DaysBeforeMonthFromMarch(y: int, m: int)
    requires 3 <= m <= 13
    ensures DaysBeforeMonth(y, m) == DaysInYear(y) - 306 + (153 * (m - 3) + 2) / 5
  {
    if m == 3 {
      assert DaysBeforeMonth(y, 2) == 31;
    } else {
      DaysBeforeMonthFromMarch(y, m - 1);
    }
  }

  /** The day number of a date is the day number of 1 January of its year plus the days of
      its year before its month and the days of its month before it. */
  lemma DaysFromNewYear(y: int, m: int, d: int)
    requires 1 <= m <= 12
    ensures DaysFromCivil(y, m, d) == DaysFromCivil(y, 1, 1) + DaysBeforeMonth(y, m) + d - 1
  {
    if m >= 3 {
      MarchToMarch(y);
      DaysBeforeMonthFromMarch(y, m);
    } else {
      assert DaysBeforeMonth(y, 2) == 31;
    }
  }

  /** New Year's days come in calendar order. */
  lemma {:induction false} NewYearMonotone(a: int, b: int)
    requires a < b
    ensures DaysFromCivil(a + 1, 1, 1) <= DaysFromCivil(b, 1, 1)
    decreases b - a
  {
    if a + 1 < b {
      NewYearMonotone(a + 1, b);
      NewYearToNewYear(a + 1);
    }
  }

  /** A valid date lies within its year: on or after its 1 January and before the next. */
  lemma DateWithinYear(date: CivilDate)
    requires ValidDate(date)
    ensures DaysFromCivil(date.year, 1, 1) <= DaysFromCivil(date.year, date.month, date.day)
    ensures DaysFromCivil(date.year, date.month, date.day) < DaysFromCivil(date.year + 1, 1, 1)
  {
    DaysFromNewYear(date.year, date.month, date.day);
    NewYearToNewYear(date.year);
    if date.month >= 3 {
      DaysBeforeMonthFromMarch(date.year, date.month);
      DaysBeforeMonthFromMarch(date.year, date.month + 1);
    } else {
      assert DaysBeforeMonth(date.year, 2) == 31;
      DaysBeforeMonthFromMarch(date.year, 3);
    }
  }

  /** The year of day `z` is the year whose 1 January is on or before it and whose next
      1 January is after it. */
  lemma YearOfDay(z: int, y: int)
    requires DaysFromCivil(y, 1, 1) <= z < DaysFromCivil(y + 1, 1, 1)
    ensures CivilFromDays(z).year == y
  {
    var date := CivilFromDays(z);
    DaysFromCivilOfCivilFromDays(z);
    DateWithinYear(date);
    if date.year < y {
      NewYearMonotone(date.year, y);
    } else if y < date.year {
      NewYearMonotone(y, date.year);
    }
  }
}
