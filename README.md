# One_Year year-progress wallpaper: a Dafny model

`render.js` draws a "year progress" wallpaper: one dot for each day of the
current UTC year, laid out in a grid of 14 columns, with the dots up to and
including today filled in the "done" colour (white) and the rest in the
"pending" colour (dark grey). This project models the integer core of that
program and proves its properties:

- `Calendar` (calendar.dfy): the Gregorian leap-year rule, the year length
  the entry point picks (365 or 366), and the 1-based ordinal of a UTC date.
  The source subtracts two UTC-midnight timestamps built by `Date.UTC` and
  divides by one day in milliseconds; UTC has no daylight-saving shifts, so
  that quotient is a whole number of days. `Date.UTC` reads the years 0 to 99
  as 1900 to 1999 and adds the day of the month to the start of the month, so
  the quotient is counted in the calendar of that mapped year (`UtcYear`).
  The model computes it from month lengths, for a date given as
  (year, month, day). For every year except 0 this is the number of days
  before the date in its own year; in year 0 it is counted in 1900's common
  year (`YearZeroOrdinals`). Outside year 0, an inverse, `FromOrdinal`, shows
  that the ordinal is a bijection from the dates of a year onto
  `1..YearLength`.
- `GridRenderer` (grid.dfy): `clamp`, the integer part of `computeGrid`
  (14 columns, `ceil(totalDays / 14)` rows, the radius clamped to `[3, 9]`),
  and `renderWallpaper`'s nested drawing loop. The canvas is abstracted as the
  sequence of dots the loop draws, each with its index, row, column and
  whether it is "done". The loop is a method with two `while` loops, the
  inner one left with `break` once the index passes the total, exactly as in
  the source; its result is proved equal to the specification `Dots`.
- `YearProgress` (year_progress.dfy): `main`'s choice of the year length and
  the day of the year for a given date, and one complete run.
- `Wrappers` (wrappers.dfy): an `Option` for the renderer's possibly missing
  `dayNumber` (`dayNumber || 0` becomes `GetOr(0)`).

## Model

| member | source | states |
|---|---|---|
| `Calendar.IsLeapYear` | render.js:30-32 | every leap year is divisible by 4; a year divisible by 4 and not by 100 is a leap year; a year divisible by 100 is a leap year exactly when it is divisible by 400 |
| `Calendar.YearLength` | render.js:124-125 | the year length is 365 or 366, and 366 exactly when the year is a leap year |
| `Calendar.LeapYearExamples` | render.js:30-32 | 2000 and 2024 are leap years of 366 days; 1900 and 2023 are not and have 365 |
| `Calendar.MonthsFillYear` | render.js:36-42 | the twelve month lengths of a year add up to the year length `main` uses, so the calendar behind `Date` and line 125 agree |
| `Calendar.UtcYear` | render.js:37-38 | the year `Date.UTC` counts in is 1900 + y for y in 0..99; it has the same leap status as y except in year 0, which is a leap year while 1900 is not |
| `Calendar.ElapsedDays` | render.js:37-40 | the whole days between the two `Date.UTC` timestamps lie in `0..YearLength-1`; outside year 0 they are the days of the months before the date's month plus the days already gone in it |
| `Calendar.DayOfYear` | render.js:36-42 | the ordinal day of a valid date lies in `1..YearLength` of its year; outside year 0 it is the days of the earlier months plus the day of the month |
| `Calendar.YearZeroOrdinals` | render.js:36-42 | in year 0, February 29 and March 1 both get ordinal 60 and December 31 gets 365 of a 366-day year |
| `Calendar.YearEnds` | render.js:41 | January 1 has ordinal 1; outside year 0, December 31 has ordinal YearLength |
| `Calendar.OrdinalOrder` | render.js:36-42 | within one year other than 0, a date precedes another if and only if its ordinal is smaller, and two dates share an ordinal only if they are the same date |
| `Calendar.ConsecutiveDays` | render.js:37-41 | outside year 0, the next calendar day in the same year has an ordinal exactly one larger |
| `Calendar.YearRollsOver` | render.js:36-42 | the new year's first day has ordinal 1; outside year 0, the last day before it has ordinal YearLength |
| `Calendar.FromOrdinal` | render.js:36-42 | in every year other than 0, every ordinal in `1..YearLength` is the ordinal of some valid date of that year |
| `Calendar.OrdinalRoundTrip` | render.js:36-42 | every valid date outside year 0 is recovered from its ordinal by `FromOrdinal` |
| `GridRenderer.Clamp` | render.js:26-28 | with `min <= max` the result lies in `[min, max]`; a value already in range is returned unchanged; values below go to `min`, above to `max`; with `max < min` the result is `min` |
| `GridRenderer.ComputeGrid` | render.js:44-57 | 14 columns; the row count is the ceiling of `totalDays / 14`, i.e. `14*(rows-1) < totalDays <= 14*rows`; the radius lies in `[3, 9]` and equals the unclamped value when that is in range |
| `GridRenderer.GridFits` | render.js:45-46 | for at least one day there is at least one row, every day has a slot and the last row is not wholly empty |
| `GridRenderer.YearGrid` | render.js:45-46 | a 365- or 366-day year gets 27 rows, and the dots drawn in the last row are exactly those with index 365 and up: one or two dots |
| `GridRenderer.DotsAt` | render.js:71-78 | the dot at drawing position `i` has index `i + 1`, row `i / 14`, column `i % 14` and is done exactly when `i + 1 <= day` |
| `GridRenderer.DotsFillGrid` | render.js:71-82 | every dot lies inside the grid, in the slot its index names, is done exactly when its index is at most the day, and the dots come in strictly increasing row-major order |
| `GridRenderer.DoneAndPendingCounts` | render.js:82 | for `0 <= day <= n`, exactly `day` of the `n` dots are done and `n - day` are pending |
| `GridRenderer.OneMoreDotDone` | render.js:82 | raising the day number by one turns exactly one more dot done, the one at the new day, and leaves every other dot as it was |
| `GridRenderer.RenderWallpaper` | render.js:60-85 | the day number, taken as 0 when missing, is clamped into `[0, totalDays]` (to 0 when `totalDays` is negative); the loop draws exactly the dots `1..totalDays` (none for a non-positive total) in row-major order with the fill rule `idx <= day`, nothing past `totalDays`, `day` of them done and the rest pending; the radius is ComputeGrid's, in `[3, 9]` |
| `GridRenderer.DaysLeft` | render.js:91 | the days-left number of the disabled overlay is never negative for a non-negative total, and equals the number of pending dots |
| `YearProgress.TodayProgress` | render.js:122-126 | the total is 365 or 366 (366 exactly in leap years) and today's day number lies in `1..totalDays` |
| `YearProgress.DayNeedsNoClamp` | render.js:61 | the day number `main` passes is never changed by the renderer's clamp |
| `YearProgress.RenderToday` | render.js:122-128 | one run draws one dot per day of the year, dot `i` at row `i / 14` and column `i % 14`, dots `1..day-of-year` done and the rest pending, with ComputeGrid's radius |
| `YearProgress.NextDayFillsOneDot` | render.js:122-128 | from one day to the next within a year other than 0, exactly one more dot is done, the one at the new day of the year, and no other dot changes |

## Left out

- Canvas drawing (`createCanvas`, `fillRect`, `beginPath`, `arc`, `fill`) and PNG encoding: calls into a graphics library outside this model; only the dots drawn are modelled, each with its fill colour as the `done` flag.
- Pixel geometry: `stepX`, `stepY`, the dot centres and the floating-point radius `floor(min(stepX, stepY) * 0.15)` are floating point; `ComputeGrid` takes that floored value as the parameter `scaledStep` and models only its clamp to `[3, 9]`. The division by zero in `stepY` when there is a single row affects only these coordinates.
- The layout constants `W`, `H`, `TOP_SAFE`, `BOTTOM_SAFE`, `SIDE_PAD` and the colour strings feed only the pixel geometry and colours above.
- Font registration and its warning, and the "days left" text overlay (disabled by `showText = false`): text measurement and placement come from the graphics library. Only the overlay's number is modelled, as `DaysLeft`.
- Reading the system clock: the date becomes the parameter `now`, a valid (year, month, day) in UTC. Milliseconds and times of day are not modelled, since only the UTC calendar date enters the computation.
- Writing `today.png` and the log line of `main`: file-system and console output.
- `GridRenderer.RenderWallpaper`: a day number that is a non-numeric JavaScript value (`NaN`, a string) is not modelled; the day number is an optional integer.
- `Calendar.DayOfYear`: the model's dates have no bounds, while a JavaScript `Date` spans about 273,790 years either side of 1970; in year -271821, whose January 1 lies before that range, the source's ordinal is `NaN` and the model gives the calendar ordinal.
- `Calendar.YearEnds`: does not promise that December 31 of year 0 is the last ordinal, because the source counts year 0 in 1900's common year and gives it 365 (`Calendar.YearZeroOrdinals`).
- `Calendar.OrdinalOrder`: does not hold in year 0, where February 29 and March 1 share ordinal 60 (`Calendar.YearZeroOrdinals`).
- `Calendar.ConsecutiveDays`: does not hold in year 0, from February 29 to March 1 (`Calendar.YearZeroOrdinals`).
- `Calendar.YearRollsOver`: does not promise that December 31 of year 0 has ordinal YearLength (`Calendar.YearZeroOrdinals`).
- `Calendar.FromOrdinal`: does not cover year 0, where the source never reaches ordinal 366 (`Calendar.YearZeroOrdinals`).
- `Calendar.OrdinalRoundTrip`: does not cover year 0, where two dates share an ordinal (`Calendar.YearZeroOrdinals`).
- `YearProgress.NextDayFillsOneDot`: does not cover year 0, where February 29 and March 1 fill the same number of dots and the last dot is never filled (`Calendar.YearZeroOrdinals`).
