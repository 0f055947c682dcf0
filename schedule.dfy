/**
 * The commit scheduler: each grid cell becomes a number of empty commits
 * proportional to its intensity, dated the cell's index in days after the
 * first Sunday of the year.
 *
 * Dates are proleptic Gregorian day ordinals, the numbering of Python's
 * `date.toordinal()`, in which day 1 (1 January of year 1) is a Monday.
 */
module Schedule {
  import opened Common

  /** Python's `date.weekday()` of a day ordinal: Monday is 0, Sunday is 6. */
  function Weekday(d: int): int {
    (d + 6) % 7
  }

  /** Days from 1 January to the first Sunday on or after it. */
  function AnchorOffset(jan1: int): (k: int)
    ensures 0 <= k <= 6
    ensures Weekday(jan1 + k) == 6
    ensures forall d :: jan1 <= d < jan1 + k ==> Weekday(d) != 6
  {
    6 - Weekday(jan1)
  }

  /** The first Sunday on or after 1 January, the date of cell 0. */
  function Anchor(jan1: int): int {
    jan1 + AnchorOffset(jan1)
  }

  lemma MulMonotone(a: nat, b: nat, c: nat)
    requires a <= b
    ensures a * c <= b * c
  {
  }

  /**
   * The commits for a cell of intensity v: floor(v / 255 * strength), here
   * in exact integer arithmetic. It is at most strength, 0 for a blank cell
   * and strength for a fully opaque one.
   */
  function CommitCount(v: Byte, strength: nat): (c: nat)
    ensures c * 255 <= v * strength < c * 255 + 255
    ensures c <= strength
    ensures v == 0 ==> c == 0
    ensures v == 255 ==> c == strength
  {
    MulMonotone(v, 255, strength);
    v * strength / 255
  }

  /** The commits of cell n, in the order they are made. */
  function CellCommits(n: nat, v: Byte, strength: nat, anchor: int): (cs: seq<Commit>)
    ensures |cs| == CommitCount(v, strength)
    ensures forall i :: 0 <= i < |cs| ==> cs[i] == Commit(n, anchor + n, i, |cs|)
  {
    var count := CommitCount(v, strength);
    seq(count, i requires 0 <= i < count => Commit(n, anchor + n, i, count))
  }

  /** The commits of the first `cells` cells, cell after cell. */
  function Plan(grid: seq<Byte>, cells: nat, strength: nat, anchor: int): seq<Commit>
    requires cells <= |grid|
  {
    if cells == 0 then []
    else Plan(grid, cells - 1, strength, anchor) + CellCommits(cells - 1, grid[cells - 1], strength, anchor)
  }

  /** The sum of the per-cell counts of the first `cells` cells. */
  function SumCounts(grid: seq<Byte>, cells: nat, strength: nat): nat
    requires cells <= |grid|
  {
    if cells == 0 then 0
    else SumCounts(grid, cells - 1, strength) + CommitCount(grid[cells - 1], strength)
  }

  function Sum(s: seq<Byte>): nat {
    if s == [] then 0 else Sum(s[..|s| - 1]) + s[|s| - 1]
  }

  /** The aggregate total the progress line divides by: floor(sum / 255 * strength). */
  function TotalCommits(grid: seq<Byte>, strength: nat): (t: nat)
    ensures t * 255 <= Sum(grid) * strength < t * 255 + 255
  {
    Sum(grid) * strength / 255
  }

  /** `a` is made before `b`: an earlier cell, or the same cell and an earlier index. */
  predicate Precedes(a: Commit, b: Commit) {
    a.cell < b.cell || (a.cell == b.cell && a.index < b.index)
  }

  /**
   * The scheduling loop: for every cell of every whole column, in
   * increasing index n, the cell's commits with i running from 0, and a
   * running counter of commits made. `total` is the aggregate figure.
   */
  method ScheduleCommits(grid: seq<Byte>, strength: nat, jan1: int)
    returns (commits: seq<Commit>, counter: nat, total: nat)
    ensures commits == Plan(grid, GridWidth(grid) * 7, strength, Anchor(jan1))
    ensures counter == |commits| == SumCounts(grid, GridWidth(grid) * 7, strength)
    ensures total == TotalCommits(grid, strength)
  {
    var firstSunday := jan1 + (6 - (jan1 + 6) % 7);
    var width := |grid| / 7;
    commits, counter := [], 0;
    total := Sum(grid) * strength / 255;
    for x := 0 to width
      invariant commits == Plan(grid, x * 7, strength, firstSunday)
      invariant counter == SumCounts(grid, x * 7, strength)
    {
      for y := 0 to 7
        invariant commits == Plan(grid, x * 7 + y, strength, firstSunday)
        invariant counter == SumCounts(grid, x * 7 + y, strength)
      {
        var n := x * 7 + y;
        var val := grid[n];
        var commitCount := val * strength / 255;
        var date := firstSunday + n;
        ghost var cell := CellCommits(n, val, strength, firstSunday);
        for i := 0 to commitCount
          invariant commits == Plan(grid, n, strength, firstSunday) + cell[..i]
        {
          assert cell[..i + 1] == cell[..i] + [Commit(n, date, i, commitCount)];
          commits := commits + [Commit(n, date, i, commitCount)];
        }
        assert cell[..commitCount] == cell;
        counter := counter + commitCount;
      }
    }
    PlanLength(grid, width * 7, strength, firstSunday);
  }

  /** The number of commits made is the sum of the per-cell counts. */
  lemma {:induction false} PlanLength(grid: seq<Byte>, cells: nat, strength: nat, anchor: int)
    requires cells <= |grid|
    ensures |Plan(grid, cells, strength, anchor)| == SumCounts(grid, cells, strength)
  {
    if cells > 0 {
      PlanLength(grid, cells - 1, strength, anchor);
    }
  }

  /**
   * Every planned commit belongs to a scheduled cell, is dated that cell's
   * index in days after the anchor, and is commit `index` of the cell's
   * `count`, which is the cell's commit count.
   */
  lemma {:induction false} PlanEntries(grid: seq<Byte>, cells: nat, strength: nat, anchor: int)
    requires cells <= |grid|
    ensures forall k :: 0 <= k < |Plan(grid, cells, strength, anchor)| ==>
              var c := Plan(grid, cells, strength, anchor)[k];
              && c.cell < cells
              && c.date == anchor + c.cell
              && c.index < c.count
              && c.count == CommitCount(grid[c.cell], strength)
  {
    if cells > 0 {
      PlanEntries(grid, cells - 1, strength, anchor);
    }
  }

  /**
   * Commits are made in increasing (cell, index) order, so their dates
   * never decrease.
   */
  lemma {:induction false} PlanOrdered(grid: seq<Byte>, cells: nat, strength: nat, anchor: int)
    requires cells <= |grid|
    ensures forall j, k :: 0 <= j < k < |Plan(grid, cells, strength, anchor)| ==>
              Precedes(Plan(grid, cells, strength, anchor)[j], Plan(grid, cells, strength, anchor)[k])
    ensures forall j, k :: 0 <= j < k < |Plan(grid, cells, strength, anchor)| ==>
              Plan(grid, cells, strength, anchor)[j].date <= Plan(grid, cells, strength, anchor)[k].date
  {
    if cells > 0 {
      var before := Plan(grid, cells - 1, strength, anchor);
      var last := CellCommits(cells - 1, grid[cells - 1], strength, anchor);
      var plan := Plan(grid, cells, strength, anchor);
      PlanOrdered(grid, cells - 1, strength, anchor);
      PlanEntries(grid, cells - 1, strength, anchor);
      assert plan == before + last;
      forall j, k | 0 <= j < k < |plan|
        ensures Precedes(plan[j], plan[k]) && plan[j].date <= plan[k].date
      {
        if k < |before| {
          assert plan[j] == before[j] && plan[k] == before[k];
        } else if j < |before| {
          assert plan[j] == before[j] && plan[k] == last[k - |before|];
        } else {
          assert plan[j] == last[j - |before|] && plan[k] == last[k - |before|];
        }
      }
    }
  }

  /** The cell in column x, row y falls y days after a Sunday. */
  lemma CellWeekday(jan1: int, x: nat, y: nat)
    requires y < 7
    ensures Weekday(Anchor(jan1) + x * 7 + y) == (6 + y) % 7
  {
  }

  /** Adding one cell keeps the sum of floors below the floor of the sum. */
  lemma FloorStep(partial: nat, sum: nat, v: nat, strength: nat)
    requires partial <= sum * strength / 255
    ensures partial + v * strength / 255 <= (sum + v) * strength / 255
  {
  }

  /**
   * Rounding each cell down separately never gives more commits than
   * rounding the sum of the same cells.
   */
  lemma {:induction false} SumCountsAtMostPrefix(grid: seq<Byte>, cells: nat, strength: nat)
    requires cells <= |grid|
    ensures SumCounts(grid, cells, strength) <= Sum(grid[..cells]) * strength / 255
  {
    if cells > 0 {
      SumCountsAtMostPrefix(grid, cells - 1, strength);
      assert grid[..cells][..cells - 1] == grid[..cells - 1];
      FloorStep(SumCounts(grid, cells - 1, strength), Sum(grid[..cells - 1]), grid[cells - 1], strength);
    }
  }

  /**
   * The commits made are at most the aggregate total, which also counts
   * the cells past the last whole column.
   */
  lemma SumCountsAtMostTotal(grid: seq<Byte>, cells: nat, strength: nat)
    requires cells <= |grid|
    ensures SumCounts(grid, cells, strength) <= TotalCommits(grid, strength)
  {
    SumCountsAtMostPrefix(grid, cells, strength);
    SumPrefix(grid, cells);
    MulMonotone(Sum(grid[..cells]), Sum(grid), strength);
  }

  lemma {:induction false} SumPrefix(s: seq<Byte>, k: nat)
    requires k <= |s|
    ensures Sum(s[..k]) <= Sum(s)
  {
    if k < |s| {
      var init := s[..|s| - 1];
      assert s[..k] == init[..k];
      SumPrefix(init, k);
    } else {
      assert s[..k] == s;
    }
  }

  /**
   * The two figures can differ: two half-lit cells with strength 1 make no
   * commit, while the aggregate total is 1.
   */
  lemma RoundingDrift()
    ensures SumCounts([128, 128, 0, 0, 0, 0, 0], 7, 1) == 0
    ensures TotalCommits([128, 128, 0, 0, 0, 0, 0], 1) == 1
  {
    var g: seq<Byte> := [128, 128, 0, 0, 0, 0, 0];
    assert [128] == [] + [128];
    SumSnoc([], 128);
    assert [128, 128] == [128] + [128];
    SumSnoc([128], 128);
    assert [128, 128, 0] == [128, 128] + [0];
    SumSnoc([128, 128], 0);
    assert [128, 128, 0, 0] == [128, 128, 0] + [0];
    SumSnoc([128, 128, 0], 0);
    assert [128, 128, 0, 0, 0] == [128, 128, 0, 0] + [0];
    SumSnoc([128, 128, 0, 0], 0);
    assert [128, 128, 0, 0, 0, 0] == [128, 128, 0, 0, 0] + [0];
    SumSnoc([128, 128, 0, 0, 0], 0);
    assert [128, 128, 0, 0, 0, 0, 0] == [128, 128, 0, 0, 0, 0] + [0];
    SumSnoc([128, 128, 0, 0, 0, 0], 0);
    assert Sum(g) == 256;
  }

  lemma SumSnoc(s: seq<Byte>, v: Byte)
    ensures Sum(s + [v]) == Sum(s) + v
  {
  }

  /** A fully opaque stretch of cells makes exactly strength commits per cell. */
  lemma {:induction false} OpaqueCells(grid: seq<Byte>, cells: nat, strength: nat)
    requires cells <= |grid|
    requires forall n :: 0 <= n < cells ==> grid[n] == 255
    ensures SumCounts(grid, cells, strength) == cells * strength
  {
    if cells > 0 {
      OpaqueCells(grid, cells - 1, strength);
    }
  }
}
