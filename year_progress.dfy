/**
 * The entry point of the year-progress wallpaper: from today's UTC date it
 * takes the year length as the dot count and the day of the year as the
 * number of dots done, and renders the grid. Reading the clock becomes the
 * parameter `now`; encoding and writing the image file are not modelled.
 */
module YearProgress {
  import opened Wrappers
  import opened Calendar
  import opened GridRenderer

  /** The progress shown: `day` dots done out of `totalDays`. */
  datatype Progress = Progress(day: int, totalDays: int)

  /** The progress of the current year on date `now`. */
  function TodayProgress(now: Date): (p: Progress)
    requires ValidDate(now)
    ensures p.totalDays == 365 || p.totalDays == 366
    ensures p.totalDays == 366 <==> IsLeapYear(now.year)
    ensures 1 <= p.day <= p.totalDays
  {
    Progress(DayOfYear(now), YearLength(now.year))
  }

  /** The day number handed to the renderer is never clamped: it is already in range. */
  lemma DayNeedsNoClamp(now: Date)
    requires ValidDate(now)
    ensures var p := TodayProgress(now); Clamp(p.day, 0, p.totalDays) == p.day
  {
  }

  /**
   * One run of the program on date `now`: one dot per day of the year, the
   * dots up to and including today done and the others pending.
   */
  method RenderToday(now: Date, scaledStep: int) returns (p: Progress, radius: int, dots: seq<Dot>)
    requires ValidDate(now)
    ensures p.day == DayOfYear(now) && p.totalDays == YearLength(now.year)
    ensures radius == ComputeGrid(p.totalDays, scaledStep).radius
    ensures dots == Dots(p.totalDays, p.day) && |dots| == p.totalDays
    ensures CountDone(dots) == p.day && CountPending(dots) == p.totalDays - p.day
    ensures forall i | 0 <= i < |dots| ::
      && dots[i].idx == i + 1
      && dots[i].row == i / COLS && dots[i].col == i % COLS
      && (dots[i].done <==> i < p.day)
  {
    p := TodayProgress(now);
    radius, dots := RenderWallpaper(Some(p.day), p.totalDays, scaledStep);
    forall i | 0 <= i < |dots|
      ensures dots[i] == DotAt(i + 1, p.day)
    {
      DotsAt(p.totalDays, p.day, i);
    }
  }

  /**
   * Each new day of the year fills exactly one more dot, the one whose index
   * is the new ordinal; every other dot keeps its colour.
   */
  lemma NextDayFillsOneDot(now: Date)
    requires ValidDate(now) && NextDay(now).year == now.year && now.year != 0
    ensures var n := YearLength(now.year);
      var before := Dots(n, DayOfYear(now));
      var after := Dots(n, DayOfYear(NextDay(now)));
      && CountDone(after) == CountDone(before) + 1
      && forall i | 0 <= i < n :: before[i] != after[i] <==> i + 1 == DayOfYear(NextDay(now))
  {
    ConsecutiveDays(now);
    OneMoreDotDone(YearLength(now.year), DayOfYear(now));
  }
}
