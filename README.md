# Year progress for 2026: a Dafny model

The page shows a grid of 365 dots, one per day of 2026. Every second, `update()`:

- marks as "past" every dot whose day has begun;
- writes how many days of 2026 are left.

This project models that calculation and proves what it promises. The calculation has three parts:

- `startOfDay` truncates an instant to local midnight.
- The three-way progress arithmetic of `update()` works out the filled dots and the days left:
  - before 2026: nothing is filled;
  - within 2026: the dots up to and including today's are filled;
  - from 2027 on: everything is filled.
- Two loops handle the dots: one creates them and one toggles their "past" state.

The repository has the same code twice, in `script.js` and `src/script.js`. The two differ only in:

- local variable names (`dot`/`d`);
- `todayStart` being inlined into the day-index expression;
- the header and subtitle text.

The model defines each operation once, and its members model both files. Each table row cites the lines of one of the two files.

Files:

- `calendar.dfy`, module `Calendar`: the proleptic Gregorian calendar on a local timeline in integer milliseconds, with no daylight saving time.
  - `DaysFromCivil` counts the days from 1970-01-01 to a date, with months counted from 1. The `Date` constructor is modelled on top of it, by `YearProgress.NewDate`.
  - `CivilFromDays` stands in for the getters `getFullYear`/`getMonth`/`getDate`.
  - Lemmas show that each of the two calendar functions inverts the other, that every field triple returned is a real date, and how long years and months are.
- `year_progress.dfy`, module `YearProgress`: `startOfDay`, the constants `start2026`/`start2027`, the day index and the progress arithmetic of `update()`.
  - The pure `ProgressAt(now)` states each of the three cases. The lemma `PastIffDayBegun` proves what the source promises of it: dot `i` is past exactly when the day it stands for has begun.
  - Lemmas: the dots and the days of 2026 are in one-to-one correspondence, progress is monotone in time and constant within a day, and the worked examples hold.
- `dot_grid.dfy`, module `DotGrid`: the dot array (one `bool` per dot element, `true` when it carries the class "past").
  - `CreateDots` is the creation loop.
  - `RefreshDots` is the `forEach` toggle.
  - `Update` is one run of `update()`: it refreshes the dots in place and returns the number of days left.

Modelling decisions:

- A JavaScript `Date` object is modelled by its millisecond value, an `int`, on a local timeline without time zones or daylight saving time. `now` is a parameter of `Update`, not a clock read.
- `StartOfDay(t)` is defined as `t - t % MsPerDay` (Dafny's `%` is Euclidean, so this is right for instants before 1970 too). `NewDate` follows the JavaScript constructor, including its reading of a year from 0 to 99 as 1900 + year. The lemma `StartOfDayFromFields` proves that `StartOfDay(t)` is what `startOfDay` constructs, the JavaScript `Date` built from the year, month and day of `t`, whenever that year is not one from 0 to 99.
- `Math.floor(x / MS_PER_DAY)` is Dafny's `x / MsPerDay`, which rounds down when the divisor is positive.
- JavaScript months count from 0. `NewDate(year, monthIndex, day)` keeps that convention, and the calendar triple `Calendar.CivilDate` counts months from 1.

## Model

| member | source | states |
|---|---|---|
| `Calendar.CivilFromDays` | script.js:16-17 | the year, month and day read off any day number form a valid date (month 1..12, day within the month's length, 29 February only in leap years) |
| `Calendar.DaysFromCivilOfCivilFromDays` | script.js:17 | rebuilding the day number from the year, month and day of any day gives back that day number |
| `Calendar.CivilFromDaysOfDaysFromCivil` | script.js:37-38 | every valid (year, month, day) triple survives the trip to a day number and back unchanged; distinct dates are distinct days |
| `Calendar.CivilFromDaysInjective` | script.js:16-17 | two day numbers have the same year, month and day if and only if they are the same day |
| `Calendar.NewYearToNewYear` | script.js:37-38 | from 1 January of year y to 1 January of y+1 there are 365 days, or 366 in a leap year |
| `Calendar.DaysFromNewYear` | script.js:45 | a date's day number is its 1 January's plus the lengths of the earlier months plus its day of month minus one |
| `Calendar.YearOfDay` | script.js:43 | a day lies in the year whose 1 January is on or before it and whose next 1 January is after it |
| `YearProgress.NewDate` | script.js:37-38 | `new Date(y, m, d)` is a local midnight |
| `YearProgress.LocalDateOfNewDate` | src/script.js:23-24 | the JavaScript `Date` built from the fields of a valid date reads them back, with the year the constructor takes the argument to mean: a year from 0 to 99 reads back as 1900 + year, any other as given |
| `YearProgress.StartOfDay` | script.js:16-18 | the start of day is a midnight at or before `t` and less than one day before it |
| `YearProgress.StartOfDayFromFields` | src/script.js:15-17 | when `t`'s year is not one from 0 to 99, the JavaScript `Date` that `startOfDay` builds from the fields of `t` is `StartOfDay(t)` and has the same calendar date as `t` |
| `YearProgress.StartOfDayIdempotent` | script.js:16-18 | applying `startOfDay` twice equals applying it once |
| `YearProgress.SameDayIffSameStart` | src/script.js:15-17 | two instants have the same start of day if and only if they have the same year, month and day |
| `YearProgress.MidnightPassed` | script.js:43-45 | a midnight has passed by `now` exactly when it has passed by the start of `now`'s day, so comparing `now` and comparing `todayStart` agree |
| `YearProgress.NewYearDayNumbers` | src/script.js:23-24 | `start2026` is the midnight of day 20454 after 1 January 1970, and `start2027` that of day 20819 |
| `YearProgress.DayIndexExact` | script.js:44-45 | `todayStart` is exactly `dayIndex` whole days after `start2026`, so `Math.floor` drops nothing |
| `YearProgress.Year2026Has365Days` | script.js:37-38 | `start2027 - start2026` is 365 days: 2026 is not a leap year, and 365 dots cover it |
| `YearProgress.TodayStartIn2026` | script.js:43-44 | for every `now` in 2026, `now`'s year is 2026 and the `todayStart` that `startOfDay(now)` builds from its fields is `StartOfDay(now)`, the midnight the day index counts from |
| `YearProgress.DayIndexInYear` | src/script.js:29-30 | whenever `start2026 <= now < start2027`, the day index lies in [0, 364] |
| `YearProgress.ProgressAt` | script.js:40-51 | before 2026 the result is (0, 365); from 2027 it is (365, 0); within 2026 `filled` is day index + 1 with the index in [0, 364]; always `filled + daysLeft == 365` and both lie in [0, 365] |
| `YearProgress.PastIffDayBegun` | src/script.js:26-36 | in all three cases, `i < filled` holds exactly when the midnight starting day `i` of 2026 is at or before `now` |
| `YearProgress.FilledMonotone` | script.js:44-51 | `filled` never decreases as `now` increases |
| `YearProgress.SameStartSameProgress` | src/script.js:30-32 | instants with the same start of day give the same filled count and days left |
| `YearProgress.SameDaySameProgress` | script.js:44-47 | instants on the same calendar day give the same filled count and days left |
| `YearProgress.DotStartDate` | script.js:7-14 | each of the 365 dots begins a valid date of 2026, and that date's day of the year is the dot's index |
| `YearProgress.DotStartDay` | script.js:53-54 | dot `i` begins at the midnight of day number 20454 + i, and the day index of that midnight is `i` |
| `YearProgress.DayIndexOfDate` | src/script.js:30 | for a valid date of 2026, the day index of its midnight equals its day of the year and lies in [0, 364] |
| `YearProgress.DotOfDate` | src/script.js:6-13 | every valid date of 2026 has a dot, at the index of its day of the year, and the day that dot begins is that date |
| `YearProgress.ExampleSecondOfMarch` | script.js:44-47 | at 10:00 on 2 March 2026 the day index is 60, 61 dots are filled and 304 days are left |
| `YearProgress.ExampleNewYear2027` | src/script.js:33-35 | at midnight on 1 January 2027, 365 dots are filled and 0 days are left |
| `YearProgress.ExampleNewYearsEve2025` | src/script.js:26-29 | at 23:59:59 on 31 December 2025, 0 dots are filled and 365 days are left |
| `DotGrid.CountPastMask` | src/script.js:38-40 | after a refresh with `0 <= filled <= 365`, exactly `filled` dots are past, namely the first `filled` ones (outside that range, the count is clipped to it) |
| `DotGrid.CreateDots` | script.js:8-14 | creates exactly 365 new dots, none of them past |
| `DotGrid.RefreshDots` | script.js:53-55 | afterwards every dot `i` is past exactly when `i < filled`; no dot keeps its earlier state by accident |
| `DotGrid.Update` | script.js:32-58 | after one `update()` the dots are the mask for `ProgressAt(now).filled`, the count of past dots is `filled`, dot `i` is past exactly when its day has begun, and the returned days left are `ProgressAt(now).daysLeft` |

## Left out

Not modelled, one line each with the reason:

- **DOM work.** Left out: `getElementById`, `createElement`, `appendChild`, the class name "dot", and writing text into `title` and `subtitle` (script.js:3-5, 35, 57; src/script.js:2-4, 21, 42). These are presentation. The dots are modelled as a `bool` array, and `Update` returns the number of days left rather than the subtitle text.
- **`formatDateTime` and `toLocaleString`** (script.js:20-30, src/script.js:21). Their output depends on the locale and on library code that is not part of this model.
- **`setInterval` and the first call to `update()`** (script.js:60-61, src/script.js:45-46). These are the timer. `Update` models one run of `update()` at a given `now`.
- **src/auth.js.** It is a single call into the Supabase client's OAuth sign-in, which is foreign code.
- **Time zones, daylight saving time and floating-point milliseconds.** The model's timeline has days of exactly 24 hours. Under a real daylight-saving change, the day difference at script.js:45 can be a fraction of a day short and round down one day low. The model does not capture that.
- **`Date` normalisation of months outside 0..11 and the limit of ±8.64e15 ms.** The source never uses either.
- YearProgress.StartOfDayFromFields: stated only for instants whose year is not one from 0 to 99. For those years `startOfDay` (script.js:16-17, src/script.js:15-16) rebuilds the day with `new Date`, which reads the year as 1900 + year, so it returns a midnight in the 1900s rather than the start of `t`'s day. `NewDate` models that reading. `StartOfDay` is the start of `t`'s own day for every year. The program only ever builds dates in 2026 and 2027. `TodayStartIn2026` proves that `update()` never meets such a year: for every `now` inside 2026, the start of day built from the fields is `StartOfDay(now)`.
- **The journaling features** (mood and reflection entries, their storage, debounced saves, swipe navigation). None of them is in the files modelled here, so there is no source to model.
- **The global `dots` array.** It is passed to the methods as a parameter rather than held as module state.
