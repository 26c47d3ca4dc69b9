/** One smoothing step of the cellular automaton: every cell is rewritten
    from the wall count of its edge-clamped 3x3 block in the OLD grid. */
module CellularAutomaton {
  import opened Tiles

  /** The number of walls among `row[lo..hi]`. */
  function RowWalls(row: seq<int>, lo: nat, hi: int): nat
    requires hi <= |row|
    decreases hi - lo
  {
    if hi <= lo then 0 else RowWalls(row, lo, hi - 1) + (if row[hi - 1] == WALL then 1 else 0)
  }

  /** The number of walls in rows `ylo..yhi` and columns `xlo..xhi` of a grid of width `w`. */
  function BlockWalls(g: Grid, w: nat, ylo: nat, yhi: int, xlo: nat, xhi: int): nat
    requires IsGrid(g, w, |g|) && yhi <= |g| && xhi <= w
    decreases yhi - ylo
  {
    if yhi <= ylo then 0 else BlockWalls(g, w, ylo, yhi - 1, xlo, xhi) + RowWalls(g[yhi - 1], xlo, xhi)
  }

  /** The wall count the source computes for (x, y): the 3x3 block around the
      cell, the cell itself included, clipped at the edges of the grid. */
  function WallCount(g: Grid, w: nat, x: int, y: int): nat
    requires IsGrid(g, w, |g|) && 0 <= x < w && 0 <= y < |g|
  {
    BlockWalls(g, w, Max(0, y - 1), Min(|g|, y + 2), Max(0, x - 1), Min(w, x + 2))
  }

  /** The rule of a step: a wall survives with at least 4 walls in its block,
      any other cell turns to wall with at least 5. */
  function NextCell(cell: int, walls: nat): (r: int)
    ensures r == WALL || r == FLOOR
    ensures r == WALL <==> (cell == WALL && walls >= 4) || (cell != WALL && walls >= 5)
  {
    if cell == WALL then (if walls >= 4 then WALL else FLOOR)
    else (if walls >= 5 then WALL else FLOOR)
  }

  /** One step, computed from the old grid only. */
  function Smooth(g: Grid, w: nat): (r: Grid)
    requires IsGrid(g, w, |g|)
    ensures IsGrid(r, w, |g|) && IsBinary(r)
    ensures forall y, x :: 0 <= y < |g| && 0 <= x < w ==> r[y][x] == NextCell(g[y][x], WallCount(g, w, x, y))
  {
    seq(|g|, y requires 0 <= y < |g| =>
      seq(w, x requires 0 <= x < w => NextCell(g[y][x], WallCount(g, w, x, y))))
  }

  /** `n` steps in a row. */
  function SmoothN(g: Grid, w: nat, n: nat): (r: Grid)
    requires IsGrid(g, w, |g|)
    ensures IsGrid(r, w, |g|)
    ensures n > 0 ==> IsBinary(r)
  {
    if n == 0 then g else Smooth(SmoothN(g, w, n - 1), w)
  }

  // ---------------------------------------------------------------------
  // Properties of the rule

  /** `g'` has a wall wherever `g` has one (same shape). */
  ghost predicate WallsKept(g: Grid, g': Grid, w: nat) {
    IsGrid(g, w, |g|) && IsGrid(g', w, |g|) &&
    forall y, x :: 0 <= y < |g| && 0 <= x < w && g[y][x] == WALL ==> g'[y][x] == WALL
  }

  lemma {:induction false} RowWallsKept(row: seq<int>, row': seq<int>, lo: nat, hi: int)
    requires |row| == |row'| && hi <= |row|
    requires forall x :: lo <= x < hi && row[x] == WALL ==> row'[x] == WALL
    ensures RowWalls(row, lo, hi) <= RowWalls(row', lo, hi)
    decreases hi - lo
  {
    if hi > lo {
      RowWallsKept(row, row', lo, hi - 1);
    }
  }

  lemma {:induction false} BlockWallsKept(g: Grid, g': Grid, w: nat, ylo: nat, yhi: int, xlo: nat, xhi: int)
    requires WallsKept(g, g', w) && yhi <= |g| && xhi <= w
    ensures BlockWalls(g, w, ylo, yhi, xlo, xhi) <= BlockWalls(g', w, ylo, yhi, xlo, xhi)
    decreases yhi - ylo
  {
    if yhi > ylo {
      BlockWallsKept(g, g', w, ylo, yhi - 1, xlo, xhi);
      RowWallsKept(g[yhi - 1], g'[yhi - 1], xlo, xhi);
    }
  }

  /** Smoothing is monotone: more walls before a step never give fewer walls after it. */
  lemma SmoothMonotone(g: Grid, g': Grid, w: nat)
    requires WallsKept(g, g', w)
    ensures WallsKept(Smooth(g, w), Smooth(g', w), w)
  {
    var r, r' := Smooth(g, w), Smooth(g', w);
    forall y, x | 0 <= y < |g| && 0 <= x < w && r[y][x] == WALL
      ensures r'[y][x] == WALL
    {
      BlockWallsKept(g, g', w, Max(0, y - 1), Min(|g|, y + 2), Max(0, x - 1), Min(w, x + 2));
    }
  }

  lemma {:induction false} RowWallsNone(row: seq<int>, lo: nat, hi: int)
    requires hi <= |row| && forall x :: lo <= x < hi ==> row[x] != WALL
    ensures RowWalls(row, lo, hi) == 0
    decreases hi - lo
  {
    if hi > lo {
      RowWallsNone(row, lo, hi - 1);
    }
  }

  lemma {:induction false} RowWallsAll(row: seq<int>, lo: nat, hi: int)
    requires hi <= |row| && forall x :: lo <= x < hi ==> row[x] == WALL
    ensures RowWalls(row, lo, hi) == if hi <= lo then 0 else hi - lo
    decreases hi - lo
  {
    if hi > lo {
      RowWallsAll(row, lo, hi - 1);
    }
  }

  lemma {:induction false} BlockWallsNone(g: Grid, w: nat, ylo: nat, yhi: int, xlo: nat, xhi: int)
    requires IsGrid(g, w, |g|) && yhi <= |g| && xhi <= w
    requires forall y, x :: 0 <= y < |g| && 0 <= x < w ==> g[y][x] != WALL
    ensures BlockWalls(g, w, ylo, yhi, xlo, xhi) == 0
    decreases yhi - ylo
  {
    if yhi > ylo {
      BlockWallsNone(g, w, ylo, yhi - 1, xlo, xhi);
      RowWallsNone(g[yhi - 1], xlo, xhi);
    }
  }

  lemma {:induction false} BlockWallsAll(g: Grid, w: nat, ylo: nat, yhi: int, xlo: nat, xhi: int)
    requires IsGrid(g, w, |g|) && yhi <= |g| && xlo < xhi <= w
    requires forall y, x :: 0 <= y < |g| && 0 <= x < w ==> g[y][x] == WALL
    ensures BlockWalls(g, w, ylo, yhi, xlo, xhi) == if yhi <= ylo then 0 else (yhi - ylo) * (xhi - xlo)
    decreases yhi - ylo
  {
    if yhi > ylo {
      BlockWallsAll(g, w, ylo, yhi - 1, xlo, xhi);
      RowWallsAll(g[yhi - 1], xlo, xhi);
      assert (yhi - ylo) * (xhi - xlo) == (yhi - 1 - ylo) * (xhi - xlo) + (xhi - xlo);
    }
  }

  /** A grid without walls is a fixed point of the step. */
  lemma OpenGridStable(g: Grid, w: nat)
    requires IsGrid(g, w, |g|) && IsBinary(g)
    requires forall y, x :: 0 <= y < |g| && 0 <= x < w ==> g[y][x] != WALL
    ensures Smooth(g, w) == g
  {
    var r := Smooth(g, w);
    forall y, x | 0 <= y < |g| && 0 <= x < w
      ensures r[y][x] == g[y][x]
    {
      BlockWallsNone(g, w, Max(0, y - 1), Min(|g|, y + 2), Max(0, x - 1), Min(w, x + 2));
    }
    assert forall y :: 0 <= y < |g| ==> r[y] == g[y];
  }

  lemma AreaAtLeastFour(a: int, b: int)
    requires a >= 2 && b >= 2
    ensures a * b >= 4
  {
    assert a * b == (a - 2) * b + 2 * b;
    assert (a - 2) * b >= 0;
  }

  /** A solid grid at least two cells wide and high is a fixed point: even a
      corner block, clipped to 2x2, holds 4 walls. */
  lemma SolidGridStable(g: Grid, w: nat)
    requires IsGrid(g, w, |g|) && w >= 2 && |g| >= 2
    requires forall y, x :: 0 <= y < |g| && 0 <= x < w ==> g[y][x] == WALL
    ensures Smooth(g, w) == g
  {
    var r := Smooth(g, w);
    forall y, x | 0 <= y < |g| && 0 <= x < w
      ensures r[y][x] == g[y][x]
    {
      var ylo, yhi, xlo, xhi := Max(0, y - 1), Min(|g|, y + 2), Max(0, x - 1), Min(w, x + 2);
      BlockWallsAll(g, w, ylo, yhi, xlo, xhi);
      AreaAtLeastFour(yhi - ylo, xhi - xlo);
    }
    assert forall y :: 0 <= y < |g| ==> r[y] == g[y];
  }

  /** In a grid one cell wide every clipped block holds at most 3 cells, so a
      single step turns the whole grid to floor. */
  lemma NarrowGridOpens(g: Grid)
    requires IsGrid(g, 1, |g|)
    ensures forall y :: 0 <= y < |g| ==> Smooth(g, 1)[y][0] == FLOOR
  {
    forall y | 0 <= y < |g|
      ensures Smooth(g, 1)[y][0] == FLOOR
    {
      var ylo, yhi := Max(0, y - 1), Min(|g|, y + 2);
      BlockWallsAtMostArea(g, 1, ylo, yhi, 0, 1);
      assert (yhi - ylo) * (1 - 0) == yhi - ylo;
      assert WallCount(g, 1, 0, y) <= 3;
    }
  }

  /** The clipped block holds at most 9 cells, so at most 9 walls. */
  lemma WallCountAtMostNine(g: Grid, w: nat, x: int, y: int)
    requires IsGrid(g, w, |g|) && 0 <= x < w && 0 <= y < |g|
    ensures WallCount(g, w, x, y) <= 9
  {
    var ylo, yhi, xlo, xhi := Max(0, y - 1), Min(|g|, y + 2), Max(0, x - 1), Min(w, x + 2);
    BlockWallsAtMostArea(g, w, ylo, yhi, xlo, xhi);
    assert 1 <= yhi - ylo <= 3 && 1 <= xhi - xlo <= 3;
    assert (yhi - ylo) * (xhi - xlo) <= 3 * (xhi - xlo) <= 9;
  }

  lemma {:induction false} RowWallsAtMost(row: seq<int>, lo: nat, hi: int)
    requires hi <= |row|
    ensures RowWalls(row, lo, hi) <= if hi <= lo then 0 else hi - lo
    decreases hi - lo
  {
    if hi > lo {
      RowWallsAtMost(row, lo, hi - 1);
    }
  }

  lemma {:induction false} BlockWallsAtMostArea(g: Grid, w: nat, ylo: nat, yhi: int, xlo: nat, xhi: int)
    requires IsGrid(g, w, |g|) && yhi <= |g| && xlo < xhi <= w
    ensures BlockWalls(g, w, ylo, yhi, xlo, xhi) <= if yhi <= ylo then 0 else (yhi - ylo) * (xhi - xlo)
    decreases yhi - ylo
  {
    if yhi > ylo {
      BlockWallsAtMostArea(g, w, ylo, yhi - 1, xlo, xhi);
      RowWallsAtMost(g[yhi - 1], xlo, xhi);
      assert (yhi - ylo) * (xhi - xlo) == (yhi - 1 - ylo) * (xhi - xlo) + (xhi - xlo);
    }
  }
}
