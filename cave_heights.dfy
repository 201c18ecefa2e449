/** Wall heights of the cave layout: the random height drawn for every wall
    cell, Unity's `Mathf.RoundToInt` on a quotient of integers, and the
    single in-place smoothing pass over interior wall cells, in which a cell
    reads neighbours that earlier cells of the same pass have already
    rewritten. */
module CaveHeights {
  import opened Grids
  import opened CaveRules

  // ---------------------------------------------------------------- random draws

  /** `Random.Range(lo, hi)` for ints, given the raw draw `d`: uniform over
      `[lo, hi)` when `lo < hi`, `lo` itself when the bounds are equal. */
  function RandomRange(lo: int, hi: int, d: nat): (r: int)
    ensures lo < hi ==> lo <= r < hi
    ensures lo == hi ==> r == lo
    ensures hi < lo ==> hi <= r <= lo
  {
    if lo < hi then lo + d % (hi - lo)
    else if lo == hi then lo
    else hi + d % (lo - hi + 1)
  }

  /** The height `GenerateWallHeights` gives (x, y): a draw from
      `Random.Range(minWallHeight, maxWallHeight + 1)` for a wall, 0 otherwise. */
  function InitialHeight(m: Grid, w: int, h: int, minWallHeight: int, maxWallHeight: int, rangeDraw: (int, int) -> nat, x: int, y: int): int
    requires IsGrid(m, w, h) && InBounds(w, h, x, y)
  {
    if m[x][y] == 1 then RandomRange(minWallHeight, maxWallHeight + 1, rangeDraw(x, y)) else 0
  }

  /** The heights of every cell. */
  function InitialHeights(m: Grid, w: nat, h: nat, minWallHeight: int, maxWallHeight: int, rangeDraw: (int, int) -> nat): (r: Grid)
    requires IsGrid(m, w, h)
    ensures IsGrid(r, w, h)
    ensures forall x, y :: InBounds(w, h, x, y) && m[x][y] != 1 ==> r[x][y] == 0
    ensures forall x, y :: InBounds(w, h, x, y) && m[x][y] == 1 ==>
              r[x][y] == RandomRange(minWallHeight, maxWallHeight + 1, rangeDraw(x, y))
  {
    seq(w, x requires 0 <= x < w =>
      seq(h, y requires 0 <= y < h =>
        InitialHeight(m, w, h, minWallHeight, maxWallHeight, rangeDraw, x, y)))
  }

  /** Every wall cell's height is in `[lo, hi]`. */
  ghost predicate WallHeightsWithin(m: Grid, hs: Grid, w: int, h: int, lo: int, hi: int)
  {
    IsGrid(m, w, h) && IsGrid(hs, w, h) &&
    forall x, y :: InBounds(w, h, x, y) && m[x][y] == 1 ==> lo <= hs[x][y] <= hi
  }

  /** Every wall height in the 3x3 window of the interior cell (x, y) is in
      `[lo, hi]`. */
  ghost predicate WindowHeightsWithin(m: Grid, hs: Grid, w: int, h: int, x: int, y: int, lo: int, hi: int)
  {
    IsGrid(m, w, h) && IsGrid(hs, w, h) && IsInterior(w, h, x, y) &&
    forall nx, ny :: x - 1 <= nx <= x + 1 && y - 1 <= ny <= y + 1 && m[nx][ny] == 1 ==> lo <= hs[nx][ny] <= hi
  }

  /** A height is 0 exactly where the map is open. */
  ghost predicate ZeroExactlyWhereOpen(m: Grid, hs: Grid, w: int, h: int)
  {
    IsGrid(m, w, h) && IsGrid(hs, w, h) &&
    forall x, y :: InBounds(w, h, x, y) ==> (hs[x][y] == 0 <==> m[x][y] == 0)
  }

  /** Fresh wall heights lie in `[minWallHeight, maxWallHeight]`, the `+ 1`
      making the exclusive upper bound of `Random.Range` inclusive; on a 0/1
      map with a positive lower bound they are 0 exactly on open cells. */
  lemma InitialHeightsShape(m: Grid, w: nat, h: nat, minWallHeight: int, maxWallHeight: int, rangeDraw: (int, int) -> nat)
    requires IsGrid(m, w, h) && minWallHeight <= maxWallHeight
    ensures WallHeightsWithin(m, InitialHeights(m, w, h, minWallHeight, maxWallHeight, rangeDraw), w, h, minWallHeight, maxWallHeight)
    ensures IsBinary(m, w, h) && 1 <= minWallHeight ==>
              ZeroExactlyWhereOpen(m, InitialHeights(m, w, h, minWallHeight, maxWallHeight, rangeDraw), w, h)
  {
    var r := InitialHeights(m, w, h, minWallHeight, maxWallHeight, rangeDraw);
    forall x, y | InBounds(w, h, x, y) && m[x][y] == 1
      ensures minWallHeight <= r[x][y] <= maxWallHeight
    {
      var v := RandomRange(minWallHeight, maxWallHeight + 1, rangeDraw(x, y));
      assert minWallHeight <= v < maxWallHeight + 1;
    }
  }

  // ---------------------------------------------------------------- rounding

  /** `Mathf.RoundToInt((float)n / d)`: the integer nearest to `n / d`, a tie
      going to the even neighbour. The float quotient of two small integers
      is a tie exactly when the rational one is, so integers model it. */
  function RoundHalfEven(n: int, d: int): (r: int)
    requires d > 0
    ensures -d <= 2 * (n - r * d) <= d
    ensures (2 * (n - r * d) == d || 2 * (n - r * d) == -d) ==> r % 2 == 0
  {
    var q, rem := n / d, n % d;
    assert n == q * d + rem && 0 <= rem < d;
    assert (q + 1) * d == q * d + d;
    if 2 * rem < d then q
    else if 2 * rem > d then q + 1
    else if q % 2 == 0 then q
    else q + 1
  }

  /** Those two properties pick out one integer. */
  lemma RoundHalfEvenUnique(n: int, d: int, r: int)
    requires d > 0
    requires -d <= 2 * (n - r * d) <= d
    requires (2 * (n - r * d) == d || 2 * (n - r * d) == -d) ==> r % 2 == 0
    ensures r == RoundHalfEven(n, d)
  {
    NearestUnique(n, d, r, RoundHalfEven(n, d));
  }

  /** Two integers within half of `d` of `n / d`, each even on a tie, are equal. */
  lemma NearestUnique(n: int, d: int, r: int, s: int)
    requires d > 0
    requires -d <= 2 * (n - r * d) <= d && -d <= 2 * (n - s * d) <= d
    requires (2 * (n - r * d) == d || 2 * (n - r * d) == -d) ==> r % 2 == 0
    requires (2 * (n - s * d) == d || 2 * (n - s * d) == -d) ==> s % 2 == 0
    ensures r == s
  {
    var k := s - r;
    var a, b := n - r * d, n - s * d;
    assert a - b == k * d;
    UnitMultiple(k, d);
    assert k == 1 ==> 2 * a == d && 2 * b == -d;
    assert k == -1 ==> 2 * a == -d && 2 * b == d;
  }

  /** A multiple `k * d` of a positive `d` that lies within `d` of 0 has `k`
      between -1 and 1. */
  lemma UnitMultiple(k: int, d: int)
    requires d > 0 && -d <= k * d <= d
    ensures -1 <= k <= 1
  {
    if k > 1 {
      assert k * d == (k - 1) * d + d;
      SignOfProduct(k - 1, d);
    } else if k < -1 {
      assert k * d == -((-k - 1) * d) - d;
      SignOfProduct(-k - 1, d);
    }
  }

  /** The sign of a product with a positive factor. */
  lemma SignOfProduct(a: int, d: int)
    requires d > 0
    ensures a > 0 ==> a * d >= d
    ensures a <= 0 ==> a * d <= 0
  {
  }

  /** A rounded mean lies between the least and greatest value averaged. */
  lemma RoundedMeanBetween(n: int, d: int, lo: int, hi: int)
    requires d > 0 && lo * d <= n <= hi * d
    ensures lo <= RoundHalfEven(n, d) <= hi
  {
    NearestBetween(n, d, lo, hi, RoundHalfEven(n, d));
  }

  /** An integer within half of `d` of `n / d` lies between `lo` and `hi`
      when `n / d` does. */
  lemma NearestBetween(n: int, d: int, lo: int, hi: int, r: int)
    requires d > 0 && lo * d <= n <= hi * d && -d <= 2 * (n - r * d) <= d
    ensures lo <= r <= hi
  {
    if r < lo {
      assert (lo - r) * d == lo * d - r * d;
      SignOfProduct(lo - r, d);
    } else if r > hi {
      assert (r - hi) * d == r * d - hi * d;
      SignOfProduct(r - hi, d);
    }
  }

  // ---------------------------------------------------------------- the 3x3 window of a wall cell

  /** What (nx, ny) adds to the window's wall count. */
  function WallAt(m: Grid, w: int, h: int, nx: int, ny: int): int
    requires IsGrid(m, w, h) && InBounds(w, h, nx, ny)
  {
    if m[nx][ny] == 1 then 1 else 0
  }

  /** What (nx, ny) adds to the window's height total. */
  function WallHeightAt(m: Grid, hs: Grid, w: int, h: int, nx: int, ny: int): int
    requires IsGrid(m, w, h) && IsGrid(hs, w, h) && InBounds(w, h, nx, ny)
  {
    if m[nx][ny] == 1 then hs[nx][ny] else 0
  }

  /** Walls among the first `n` rows of column `nx` of the window of (cx, cy). */
  function ColumnWalls(m: Grid, w: int, h: int, cx: int, cy: int, nx: int, n: nat): int
    requires IsGrid(m, w, h) && IsInterior(w, h, cx, cy) && cx - 1 <= nx <= cx + 1 && n <= 3
  {
    if n == 0 then 0
    else ColumnWalls(m, w, h, cx, cy, nx, n - 1) + WallAt(m, w, h, nx, cy - 2 + n)
  }

  /** Walls among the first `k` columns of the window of (cx, cy). */
  function WindowWalls(m: Grid, w: int, h: int, cx: int, cy: int, k: nat): int
    requires IsGrid(m, w, h) && IsInterior(w, h, cx, cy) && k <= 3
  {
    if k == 0 then 0
    else WindowWalls(m, w, h, cx, cy, k - 1) + ColumnWalls(m, w, h, cx, cy, cx - 2 + k, 3)
  }

  /** Wall heights summed over the first `n` rows of column `nx`. */
  function ColumnTotal(m: Grid, hs: Grid, w: int, h: int, cx: int, cy: int, nx: int, n: nat): int
    requires IsGrid(m, w, h) && IsGrid(hs, w, h) && IsInterior(w, h, cx, cy) && cx - 1 <= nx <= cx + 1 && n <= 3
  {
    if n == 0 then 0
    else ColumnTotal(m, hs, w, h, cx, cy, nx, n - 1) + WallHeightAt(m, hs, w, h, nx, cy - 2 + n)
  }

  /** Wall heights summed over the first `k` columns of the window. */
  function WindowTotal(m: Grid, hs: Grid, w: int, h: int, cx: int, cy: int, k: nat): int
    requires IsGrid(m, w, h) && IsGrid(hs, w, h) && IsInterior(w, h, cx, cy) && k <= 3
  {
    if k == 0 then 0
    else WindowTotal(m, hs, w, h, cx, cy, k - 1) + ColumnTotal(m, hs, w, h, cx, cy, cx - 2 + k, 3)
  }

  /** Count and total of the window, as sums of nine terms. */
  lemma WindowUnfold(m: Grid, hs: Grid, w: int, h: int, x: int, y: int)
    requires IsGrid(m, w, h) && IsGrid(hs, w, h) && IsInterior(w, h, x, y)
    ensures WindowWalls(m, w, h, x, y, 3) ==
      WallAt(m, w, h, x - 1, y - 1) + WallAt(m, w, h, x - 1, y) + WallAt(m, w, h, x - 1, y + 1) +
      WallAt(m, w, h, x, y - 1) + WallAt(m, w, h, x, y) + WallAt(m, w, h, x, y + 1) +
      WallAt(m, w, h, x + 1, y - 1) + WallAt(m, w, h, x + 1, y) + WallAt(m, w, h, x + 1, y + 1)
    ensures WindowTotal(m, hs, w, h, x, y, 3) ==
      WallHeightAt(m, hs, w, h, x - 1, y - 1) + WallHeightAt(m, hs, w, h, x - 1, y) + WallHeightAt(m, hs, w, h, x - 1, y + 1) +
      WallHeightAt(m, hs, w, h, x, y - 1) + WallHeightAt(m, hs, w, h, x, y) + WallHeightAt(m, hs, w, h, x, y + 1) +
      WallHeightAt(m, hs, w, h, x + 1, y - 1) + WallHeightAt(m, hs, w, h, x + 1, y) + WallHeightAt(m, hs, w, h, x + 1, y + 1)
  {
    forall nx | x - 1 <= nx <= x + 1
      ensures ColumnWalls(m, w, h, x, y, nx, 3) ==
        WallAt(m, w, h, nx, y - 1) + WallAt(m, w, h, nx, y) + WallAt(m, w, h, nx, y + 1)
      ensures ColumnTotal(m, hs, w, h, x, y, nx, 3) ==
        WallHeightAt(m, hs, w, h, nx, y - 1) + WallHeightAt(m, hs, w, h, nx, y) + WallHeightAt(m, hs, w, h, nx, y + 1)
    {
      assert ColumnWalls(m, w, h, x, y, nx, 1) == WallAt(m, w, h, nx, y - 1);
      assert ColumnWalls(m, w, h, x, y, nx, 2) == ColumnWalls(m, w, h, x, y, nx, 1) + WallAt(m, w, h, nx, y);
      assert ColumnTotal(m, hs, w, h, x, y, nx, 1) == WallHeightAt(m, hs, w, h, nx, y - 1);
      assert ColumnTotal(m, hs, w, h, x, y, nx, 2) == ColumnTotal(m, hs, w, h, x, y, nx, 1) + WallHeightAt(m, hs, w, h, nx, y);
    }
    assert WindowWalls(m, w, h, x, y, 1) == ColumnWalls(m, w, h, x, y, x - 1, 3);
    assert WindowWalls(m, w, h, x, y, 2) == WindowWalls(m, w, h, x, y, 1) + ColumnWalls(m, w, h, x, y, x, 3);
    assert WindowTotal(m, hs, w, h, x, y, 1) == ColumnTotal(m, hs, w, h, x, y, x - 1, 3);
    assert WindowTotal(m, hs, w, h, x, y, 2) == WindowTotal(m, hs, w, h, x, y, 1) + ColumnTotal(m, hs, w, h, x, y, x, 3);
  }

  /** A wall cell's window holds at least the cell itself, so the source's
      `wallCount > 0` guard always passes; the window holds at most 9 walls. */
  lemma WindowWallsOfWall(m: Grid, hs: Grid, w: int, h: int, x: int, y: int)
    requires IsGrid(m, w, h) && IsGrid(hs, w, h) && IsInterior(w, h, x, y) && m[x][y] == 1
    ensures 1 <= WindowWalls(m, w, h, x, y, 3) <= 9
  {
    WindowUnfold(m, hs, w, h, x, y);
  }

  /** With every wall height in `[lo, hi]`, the total of the first `n` rows
      of a column lies between `lo` and `hi` times their wall count. */
  lemma {:induction false} ColumnTotalBetween(m: Grid, hs: Grid, w: int, h: int, x: int, y: int, nx: int, n: nat, lo: int, hi: int)
    requires WindowHeightsWithin(m, hs, w, h, x, y, lo, hi) && x - 1 <= nx <= x + 1 && n <= 3
    ensures lo * ColumnWalls(m, w, h, x, y, nx, n) <= ColumnTotal(m, hs, w, h, x, y, nx, n) <= hi * ColumnWalls(m, w, h, x, y, nx, n)
  {
    if n > 0 {
      ColumnTotalBetween(m, hs, w, h, x, y, nx, n - 1, lo, hi);
      var ny := y - 2 + n;
      var b, tb := WallAt(m, w, h, nx, ny), WallHeightAt(m, hs, w, h, nx, ny);
      assert lo * b <= tb <= hi * b by {
        if m[nx][ny] == 1 {
          assert InBounds(w, h, nx, ny);
        }
      }
      SumBetween(lo, hi, ColumnWalls(m, w, h, x, y, nx, n - 1), ColumnTotal(m, hs, w, h, x, y, nx, n - 1), b, tb);
    }
  }

  /** Bounds `lo * a <= ta <= hi * a` add up. */
  lemma SumBetween(lo: int, hi: int, a: int, ta: int, b: int, tb: int)
    requires lo * a <= ta <= hi * a && lo * b <= tb <= hi * b
    ensures lo * (a + b) <= ta + tb <= hi * (a + b)
  {
    assert lo * (a + b) == lo * a + lo * b;
    assert hi * (a + b) == hi * a + hi * b;
  }

  /** The same for the first `k` columns of the window. */
  lemma {:induction false} WindowTotalBetween(m: Grid, hs: Grid, w: int, h: int, x: int, y: int, k: nat, lo: int, hi: int)
    requires WindowHeightsWithin(m, hs, w, h, x, y, lo, hi) && k <= 3
    ensures lo * WindowWalls(m, w, h, x, y, k) <= WindowTotal(m, hs, w, h, x, y, k) <= hi * WindowWalls(m, w, h, x, y, k)
  {
    if k > 0 {
      WindowTotalBetween(m, hs, w, h, x, y, k - 1, lo, hi);
      ColumnTotalBetween(m, hs, w, h, x, y, x - 2 + k, 3, lo, hi);
      SumBetween(lo, hi, WindowWalls(m, w, h, x, y, k - 1), WindowTotal(m, hs, w, h, x, y, k - 1),
                 ColumnWalls(m, w, h, x, y, x - 2 + k, 3), ColumnTotal(m, hs, w, h, x, y, x - 2 + k, 3));
    }
  }

  // ---------------------------------------------------------------- the in-place pass

  /** The value `SmoothWallHeights` writes for the wall cell (x, y) when the
      heights currently stand at `hs`. */
  function SmoothedHeight(m: Grid, hs: Grid, w: int, h: int, x: int, y: int): int
    requires IsGrid(m, w, h) && IsGrid(hs, w, h) && IsInterior(w, h, x, y)
  {
    var count := WindowWalls(m, w, h, x, y, 3);
    if count > 0 then RoundHalfEven(WindowTotal(m, hs, w, h, x, y, 3), count) else hs[x][y]
  }

  /** The pass's visit to (x, y): a wall cell's height is overwritten. */
  function StepCell(m: Grid, hs: Grid, w: int, h: int, x: int, y: int): (r: Grid)
    requires IsGrid(m, w, h) && IsGrid(hs, w, h) && IsInterior(w, h, x, y)
    ensures IsGrid(r, w, h)
  {
    if m[x][y] == 1 then hs[x := hs[x][y := SmoothedHeight(m, hs, w, h, x, y)]] else hs
  }

  /** Visits (x, 1) .. (x, n) in order, each reading the heights as the
      previous visit left them. */
  function SmoothColumn(m: Grid, hs: Grid, w: int, h: int, x: int, n: nat): (r: Grid)
    requires IsGrid(m, w, h) && IsGrid(hs, w, h) && 1 <= x < w - 1 && n <= h - 2
    ensures IsGrid(r, w, h)
  {
    if n == 0 then hs else StepCell(m, SmoothColumn(m, hs, w, h, x, n - 1), w, h, x, n)
  }

  /** Visits columns 1 .. k in order. */
  function SmoothColumns(m: Grid, hs: Grid, w: int, h: int, k: nat): (r: Grid)
    requires IsGrid(m, w, h) && IsGrid(hs, w, h) && k <= w - 2 && 2 <= h
    ensures IsGrid(r, w, h)
  {
    if k == 0 then hs else SmoothColumn(m, SmoothColumns(m, hs, w, h, k - 1), w, h, k, h - 2)
  }

  /** The heights after `SmoothWallHeights`. */
  function SmoothHeights(m: Grid, hs: Grid, w: int, h: int): (r: Grid)
    requires IsGrid(m, w, h) && IsGrid(hs, w, h)
    ensures IsGrid(r, w, h)
  {
    if 2 <= w && 2 <= h then SmoothColumns(m, hs, w, h, w - 2) else hs
  }

  /** Two height grids agree on every cell the pass does not visit or does
      not rewrite: border cells and cells that are not walls. */
  ghost predicate AgreeOffInteriorWalls(m: Grid, a: Grid, b: Grid, w: int, h: int)
  {
    IsGrid(m, w, h) && IsGrid(a, w, h) && IsGrid(b, w, h) &&
    forall x, y :: InBounds(w, h, x, y) && (IsBorder(w, h, x, y) || m[x][y] != 1) ==> a[x][y] == b[x][y]
  }

  /** One visit keeps wall heights within `[lo, hi]` and touches no other cell. */
  lemma StepCellKeeps(m: Grid, hs: Grid, w: int, h: int, x: int, y: int, lo: int, hi: int)
    requires IsGrid(m, w, h) && IsGrid(hs, w, h) && IsInterior(w, h, x, y)
    ensures AgreeOffInteriorWalls(m, hs, StepCell(m, hs, w, h, x, y), w, h)
    ensures WallHeightsWithin(m, hs, w, h, lo, hi) ==> WallHeightsWithin(m, StepCell(m, hs, w, h, x, y), w, h, lo, hi)
  {
    if m[x][y] == 1 && WallHeightsWithin(m, hs, w, h, lo, hi) {
      assert WindowHeightsWithin(m, hs, w, h, x, y, lo, hi);
      WindowMeanBetween(m, hs, w, h, x, y, lo, hi);
    }
  }

  /** The value a wall cell receives lies between the smallest and the
      largest wall height of its own window, as they stand at the visit. */
  lemma WindowMeanBetween(m: Grid, hs: Grid, w: int, h: int, x: int, y: int, lo: int, hi: int)
    requires WindowHeightsWithin(m, hs, w, h, x, y, lo, hi) && m[x][y] == 1
    ensures lo <= SmoothedHeight(m, hs, w, h, x, y) <= hi
  {
    WindowWallsOfWall(m, hs, w, h, x, y);
    WindowTotalBetween(m, hs, w, h, x, y, 3, lo, hi);
    RoundedMeanBetween(WindowTotal(m, hs, w, h, x, y, 3), WindowWalls(m, w, h, x, y, 3), lo, hi);
  }

  lemma {:induction false} SmoothColumnKeeps(m: Grid, hs: Grid, w: int, h: int, x: int, n: nat, lo: int, hi: int)
    requires IsGrid(m, w, h) && IsGrid(hs, w, h) && 1 <= x < w - 1 && n <= h - 2
    ensures AgreeOffInteriorWalls(m, hs, SmoothColumn(m, hs, w, h, x, n), w, h)
    ensures WallHeightsWithin(m, hs, w, h, lo, hi) ==> WallHeightsWithin(m, SmoothColumn(m, hs, w, h, x, n), w, h, lo, hi)
  {
    if n > 0 {
      SmoothColumnKeeps(m, hs, w, h, x, n - 1, lo, hi);
      StepCellKeeps(m, SmoothColumn(m, hs, w, h, x, n - 1), w, h, x, n, lo, hi);
    }
  }

  lemma {:induction false} SmoothColumnsKeeps(m: Grid, hs: Grid, w: int, h: int, k: nat, lo: int, hi: int)
    requires IsGrid(m, w, h) && IsGrid(hs, w, h) && k <= w - 2 && 2 <= h
    ensures AgreeOffInteriorWalls(m, hs, SmoothColumns(m, hs, w, h, k), w, h)
    ensures WallHeightsWithin(m, hs, w, h, lo, hi) ==> WallHeightsWithin(m, SmoothColumns(m, hs, w, h, k), w, h, lo, hi)
  {
    if k > 0 {
      SmoothColumnsKeeps(m, hs, w, h, k - 1, lo, hi);
      SmoothColumnKeeps(m, SmoothColumns(m, hs, w, h, k - 1), w, h, k, h - 2, lo, hi);
    }
  }

  /** The pass rewrites only interior wall cells, and a wall height that
      started in `[lo, hi]` ends there: each rewrite is a rounded mean of wall
      heights that are already in range, whether or not the pass has reached
      them yet. */
  lemma SmoothHeightsKeeps(m: Grid, hs: Grid, w: int, h: int, lo: int, hi: int)
    requires IsGrid(m, w, h) && IsGrid(hs, w, h)
    ensures AgreeOffInteriorWalls(m, hs, SmoothHeights(m, hs, w, h), w, h)
    ensures WallHeightsWithin(m, hs, w, h, lo, hi) ==> WallHeightsWithin(m, SmoothHeights(m, hs, w, h), w, h, lo, hi)
  {
    if 2 <= w && 2 <= h {
      SmoothColumnsKeeps(m, hs, w, h, w - 2, lo, hi);
    }
  }

  /** With positive height bounds, heights stay 0 exactly on open cells. */
  lemma SmoothHeightsKeepsZeroExactlyWhereOpen(m: Grid, hs: Grid, w: int, h: int, lo: int, hi: int)
    requires IsBinary(m, w, h) && 1 <= lo
    requires WallHeightsWithin(m, hs, w, h, lo, hi) && ZeroExactlyWhereOpen(m, hs, w, h)
    ensures ZeroExactlyWhereOpen(m, SmoothHeights(m, hs, w, h), w, h)
  {
    SmoothHeightsKeeps(m, hs, w, h, lo, hi);
    var r := SmoothHeights(m, hs, w, h);
    forall x, y | InBounds(w, h, x, y)
      ensures r[x][y] == 0 <==> m[x][y] == 0
    {
      if m[x][y] == 1 {
        assert lo <= r[x][y];
      } else {
        assert r[x][y] == hs[x][y];
      }
    }
  }

  /** (x, y) is an interior wall cell whose eight neighbours are all open. */
  ghost predicate IsolatedWall(m: Grid, w: int, h: int, x: int, y: int)
  {
    IsGrid(m, w, h) && IsInterior(w, h, x, y) && m[x][y] == 1 &&
    forall nx, ny :: x - 1 <= nx <= x + 1 && y - 1 <= ny <= y + 1 && (nx != x || ny != y) ==> m[nx][ny] == 0
  }

  /** An isolated wall averages over itself alone and keeps its height. */
  lemma IsolatedWallKeepsHeight(m: Grid, hs: Grid, w: int, h: int, x: int, y: int)
    requires IsolatedWall(m, w, h, x, y) && IsGrid(hs, w, h)
    ensures SmoothedHeight(m, hs, w, h, x, y) == hs[x][y]
  {
    WindowUnfold(m, hs, w, h, x, y);
    assert WindowWalls(m, w, h, x, y, 3) == 1;
    assert WindowTotal(m, hs, w, h, x, y, 3) == hs[x][y];
  }

  /** No visit, to the isolated wall or to any other cell, changes the
      isolated wall's height. */
  lemma StepCellKeepsIsolated(m: Grid, hs: Grid, w: int, h: int, a: int, b: int, x: int, y: int)
    requires IsolatedWall(m, w, h, x, y) && IsGrid(hs, w, h) && IsInterior(w, h, a, b)
    ensures StepCell(m, hs, w, h, a, b)[x][y] == hs[x][y]
  {
    if a == x && b == y {
      IsolatedWallKeepsHeight(m, hs, w, h, x, y);
    }
  }

  lemma {:induction false} SmoothColumnKeepsIsolated(m: Grid, hs: Grid, w: int, h: int, c: int, n: nat, x: int, y: int)
    requires IsolatedWall(m, w, h, x, y) && IsGrid(hs, w, h) && 1 <= c < w - 1 && n <= h - 2
    ensures SmoothColumn(m, hs, w, h, c, n)[x][y] == hs[x][y]
  {
    if n > 0 {
      SmoothColumnKeepsIsolated(m, hs, w, h, c, n - 1, x, y);
      StepCellKeepsIsolated(m, SmoothColumn(m, hs, w, h, c, n - 1), w, h, c, n, x, y);
    }
  }

  lemma {:induction false} SmoothColumnsKeepsIsolated(m: Grid, hs: Grid, w: int, h: int, k: nat, x: int, y: int)
    requires IsolatedWall(m, w, h, x, y) && IsGrid(hs, w, h) && k <= w - 2 && 2 <= h
    ensures SmoothColumns(m, hs, w, h, k)[x][y] == hs[x][y]
  {
    if k > 0 {
      SmoothColumnsKeepsIsolated(m, hs, w, h, k - 1, x, y);
      SmoothColumnKeepsIsolated(m, SmoothColumns(m, hs, w, h, k - 1), w, h, k, h - 2, x, y);
    }
  }

  /** The whole in-place pass leaves an isolated wall's height as it was. */
  lemma SmoothHeightsKeepsIsolatedWall(m: Grid, hs: Grid, w: int, h: int, x: int, y: int)
    requires IsolatedWall(m, w, h, x, y) && IsGrid(hs, w, h)
    ensures SmoothHeights(m, hs, w, h)[x][y] == hs[x][y]
  {
    SmoothColumnsKeepsIsolated(m, hs, w, h, w - 2, x, y);
  }

  // ---------------------------------------------------------------- the whole layout

  /** `GenerateMap`, `SmoothMap`, `GenerateWallHeights` and `SmoothWallHeights`
      in the order the generator runs them leave a cave map whose heights are
      0 exactly on open cells and within `[minWallHeight, maxWallHeight]` on
      walls. */
  lemma CaveLayoutInvariants(w: nat, h: nat, fillPercent: real, randomValue: (int, int) -> real, smoothIterations: int,
                             minWallHeight: int, maxWallHeight: int, rangeDraw: (int, int) -> nat)
    requires 1 <= minWallHeight <= maxWallHeight
    ensures var m := SmoothN(InitialMap(w, h, fillPercent, randomValue), w, h, IterationCount(smoothIterations));
            var hs := SmoothHeights(m, InitialHeights(m, w, h, minWallHeight, maxWallHeight, rangeDraw), w, h);
            IsCaveMap(m, w, h) && ZeroExactlyWhereOpen(m, hs, w, h) && WallHeightsWithin(m, hs, w, h, minWallHeight, maxWallHeight)
  {
    var m0 := InitialMap(w, h, fillPercent, randomValue);
    var m := SmoothN(m0, w, h, IterationCount(smoothIterations));
    SmoothNKeepsCaveMap(m0, w, h, IterationCount(smoothIterations));
    var h0 := InitialHeights(m, w, h, minWallHeight, maxWallHeight, rangeDraw);
    InitialHeightsShape(m, w, h, minWallHeight, maxWallHeight, rangeDraw);
    SmoothHeightsKeeps(m, h0, w, h, minWallHeight, maxWallHeight);
    SmoothHeightsKeepsZeroExactlyWhereOpen(m, h0, w, h, minWallHeight, maxWallHeight);
  }
}
