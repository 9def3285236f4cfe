/**
 * The grid renderer: one dot per day of the span, laid out row by row in a
 * fixed number of columns, a dot "done" when its index is at most the clamped
 * day number. The canvas is abstracted as the sequence of dots the drawing
 * loop emits, each with its 1-based index, its grid row and column, and
 * whether it is filled in the "done" colour or the "pending" one.
 */
module GridRenderer {
  import opened Wrappers

  /** The grid always has this many columns. */
  const COLS := 14
  /** Bounds of the dot radius in pixels. */
  const MIN_RADIUS := 3
  const MAX_RADIUS := 9

  /** `n` forced into the range `[min, max]`, as `max(min, min(max, n))`. */
  function Clamp(n: int, min: int, max: int): (r: int)
    ensures min <= max ==> min <= r <= max
    ensures min <= n <= max ==> r == n
    ensures n <= min ==> r == min
    ensures min <= max <= n ==> r == max
    ensures max < min ==> r == min
  {
    var m := if max < n then max else n;
    if min < m then m else min
  }

  /** The integer layout of the grid: its columns, its rows and the dot radius. */
  datatype Layout = Layout(cols: int, rows: int, radius: int)

  /**
   * The grid for `totalDays` dots. `scaledStep` stands for the floored
   * floating-point value `floor(min(stepX, stepY) * 0.15)` that the radius is
   * clamped from.
   */
  function ComputeGrid(totalDays: int, scaledStep: int): (g: Layout)
    ensures g.cols == COLS
    ensures g.cols * (g.rows - 1) < totalDays <= g.cols * g.rows
    ensures MIN_RADIUS <= g.radius <= MAX_RADIUS
    ensures MIN_RADIUS <= scaledStep <= MAX_RADIUS ==> g.radius == scaledStep
  {
    // Math.ceil(totalDays / 14): with a positive divisor Dafny's `/` is floor division.
    Layout(COLS, (totalDays + COLS - 1) / COLS, Clamp(scaledStep, MIN_RADIUS, MAX_RADIUS))
  }

  /** A grid of at least one day has at least one row, and every row holds a dot. */
  lemma GridFits(totalDays: int, scaledStep: int)
    requires totalDays >= 1
    ensures var g := ComputeGrid(totalDays, scaledStep);
      g.rows >= 1 && g.cols * g.rows >= totalDays && g.cols * (g.rows - 1) < totalDays
  {
  }

  /** One dot the renderer draws. */
  datatype Dot = Dot(idx: int, row: int, col: int, done: bool)

  /** The dot the grid places at 1-based position `idx` when `day` days are done. */
  function DotAt(idx: int, day: int): Dot {
    Dot(idx, (idx - 1) / COLS, (idx - 1) % COLS, idx <= day)
  }

  /** The dots for positions 1 to `n`, in drawing order. */
  function Dots(n: nat, day: int): (s: seq<Dot>)
    ensures |s| == n
  {
    if n == 0 then [] else Dots(n - 1, day) + [DotAt(n, day)]
  }

  /** Dot `i` of the sequence (0-based) is the one at position `i + 1`. */
  lemma {:induction false} DotsAt(n: nat, day: int, i: int)
    requires 0 <= i < n
    ensures Dots(n, day)[i] == DotAt(i + 1, day)
  {
    if i < n - 1 {
      DotsAt(n - 1, day, i);
    }
  }

  /** How many dots of `s` are filled in the "done" colour. */
  function CountDone(s: seq<Dot>): (c: nat)
    ensures c <= |s|
  {
    if s == [] then 0 else CountDone(s[..|s| - 1]) + (if s[|s| - 1].done then 1 else 0)
  }

  /** How many dots of `s` are filled in the "pending" colour. */
  function CountPending(s: seq<Dot>): (c: nat)
    ensures c <= |s|
  {
    if s == [] then 0 else CountPending(s[..|s| - 1]) + (if s[|s| - 1].done then 0 else 1)
  }

  /** Exactly `day` of the first `n` dots are done, and the rest are pending. */
  lemma {:induction false} DoneAndPendingCounts(n: nat, day: int)
    requires 0 <= day <= n
    ensures CountDone(Dots(n, day)) == day
    ensures CountPending(Dots(n, day)) == n - day
  {
    if n > 0 {
      var s := Dots(n, day);
      assert s[..n - 1] == Dots(n - 1, day);
      if day == n {
        DoneAndPendingCounts(n - 1, day - 1);
        DotsAgreeBelow(n - 1, day - 1, day);
      } else {
        DoneAndPendingCounts(n - 1, day);
      }
    }
  }

  /**
   * A year's grid has 27 rows, and the dots drawn in its last row are those
   * from index 365 on: one dot for a 365-day year, two for a 366-day one.
   */
  lemma YearGrid(n: nat, day: int, scaledStep: int)
    requires n == 365 || n == 366
    ensures ComputeGrid(n, scaledStep).rows == 27
    ensures forall i | 0 <= i < n :: Dots(n, day)[i].row == 26 <==> 365 <= Dots(n, day)[i].idx
  {
    forall i | 0 <= i < n
      ensures Dots(n, day)[i] == DotAt(i + 1, day)
    {
      DotsAt(n, day, i);
    }
  }

  /**
   * Raising the day number by one turns exactly one more dot done: the one
   * whose index is the new day number.
   */
  lemma OneMoreDotDone(n: nat, day: int)
    requires 0 <= day < n
    ensures CountDone(Dots(n, day + 1)) == CountDone(Dots(n, day)) + 1
    ensures forall i | 0 <= i < n :: Dots(n, day)[i] != Dots(n, day + 1)[i] <==> i == day
  {
    DoneAndPendingCounts(n, day);
    DoneAndPendingCounts(n, day + 1);
    forall i | 0 <= i < n
      ensures Dots(n, day)[i] == DotAt(i + 1, day) && Dots(n, day + 1)[i] == DotAt(i + 1, day + 1)
    {
      DotsAt(n, day, i);
      DotsAt(n, day + 1, i);
    }
  }

  /** Moving the day number past every drawn position changes no dot. */
  lemma {:induction false} DotsAgreeBelow(n: nat, day1: int, day2: int)
    requires n <= day1 && n <= day2
    ensures Dots(n, day1) == Dots(n, day2)
  {
    if n > 0 {
      DotsAgreeBelow(n - 1, day1, day2);
    }
  }

  /**
   * The dots fill the grid's slots in row-major order: dot `i` has index
   * `i + 1`, sits in slot `i` (row `i / 14`, column `i % 14`) of a grid with
   * ComputeGrid's rows, is done exactly when its index is at most `day`, and
   * comes strictly after every earlier dot in reading order.
   */
  lemma {:induction false} DotsFillGrid(n: nat, day: int, scaledStep: int)
    ensures var s := Dots(n, day); var g := ComputeGrid(n, scaledStep);
      forall i | 0 <= i < n ::
        && s[i].idx == i + 1
        && 0 <= s[i].row < g.rows && 0 <= s[i].col < g.cols
        && s[i].row * g.cols + s[i].col == i
        && (s[i].done <==> s[i].idx <= day)
    ensures var s := Dots(n, day);
      forall i, j | 0 <= i < j < n ::
        s[i].row < s[j].row || (s[i].row == s[j].row && s[i].col < s[j].col)
  {
    var s := Dots(n, day);
    forall i | 0 <= i < n
      ensures s[i] == DotAt(i + 1, day)
    {
      DotsAt(n, day, i);
    }
  }

  /**
   * Draws the wallpaper's dot grid for `totalDays` days of which `dayNumber`
   * are done (a missing day number counts as 0). Returns the radius every dot
   * is drawn with and the dots in drawing order.
   */
  method RenderWallpaper(dayNumber: Option<int>, totalDays: int, scaledStep: int)
    returns (radius: int, dots: seq<Dot>)
    ensures radius == ComputeGrid(totalDays, scaledStep).radius
    ensures MIN_RADIUS <= radius <= MAX_RADIUS
    ensures var day := Clamp(dayNumber.GetOr(0), 0, totalDays);
      var n := if totalDays < 0 then 0 else totalDays;
      && dots == Dots(n, day)
      && CountDone(dots) == day
      && CountPending(dots) == n - day
  {
    var day := Clamp(dayNumber.GetOr(0), 0, totalDays);
    var grid := ComputeGrid(totalDays, scaledStep);
    radius := grid.radius;

    dots := [];
    var idx := 0;
    var row := 0;
    while row < grid.rows
      invariant 0 <= row && (row == 0 || row <= grid.rows)
      invariant row < grid.rows ==> idx == COLS * row
      invariant dots == Dots(if row < grid.rows then COLS * row else if totalDays < 0 then 0 else totalDays, day)
    {
      var col := 0;
      while col < grid.cols
        invariant 0 <= col <= grid.cols
        invariant idx == COLS * row + col <= totalDays
        invariant dots == Dots(idx, day)
      {
        idx := idx + 1;
        if idx > totalDays {
          break;
        }
        dots := dots + [Dot(idx, row, col, idx <= day)];
        col := col + 1;
      }
      row := row + 1;
    }
    DoneAndPendingCounts(|dots|, day);
  }

  /**
   * The number of days left that the disabled text overlay would show: the
   * total less the clamped day number.
   */
  function DaysLeft(dayNumber: Option<int>, totalDays: int): (n: int)
    ensures totalDays >= 0 ==> n >= 0
    ensures totalDays >= 0 ==> n == CountPending(Dots(totalDays, Clamp(dayNumber.GetOr(0), 0, totalDays)))
  {
    var day := Clamp(dayNumber.GetOr(0), 0, totalDays);
    var left := totalDays - day;
    if totalDays < 0 then left
    else
      DoneAndPendingCounts(totalDays, day);
      left
  }
}
