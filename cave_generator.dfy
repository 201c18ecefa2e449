/** The cave-layout generator itself: an object holding the configuration and
    the two `int[,]` grids, `map` (here `caveMap`, as `map` is a keyword; 1 = wall, 0 = open) and `wallHeights`, which
    its methods allocate and update in place. Each method is proved against the
    value-level rules of `CaveRules` and `CaveHeights`. */
module Cave {
  import opened Grids
  import opened CaveRules
  import opened CaveHeights

  class CaveGenerator {
    const width: nat
    const height: nat
    const fillPercent: real
    const smoothIterations: int
    const minWallHeight: int
    const maxWallHeight: int

    var caveMap: array2?<int>
    var wallHeights: array2?<int>

    /** Both grids are unallocated until `GenerateMap` runs. */
    constructor (width: nat, height: nat, fillPercent: real, smoothIterations: int, minWallHeight: int, maxWallHeight: int)
      ensures this.width == width && this.height == height && this.fillPercent == fillPercent
      ensures this.smoothIterations == smoothIterations
      ensures this.minWallHeight == minWallHeight && this.maxWallHeight == maxWallHeight
      ensures caveMap == null && wallHeights == null
    {
      this.width, this.height, this.fillPercent := width, height, fillPercent;
      this.smoothIterations := smoothIterations;
      this.minWallHeight, this.maxWallHeight := minWallHeight, maxWallHeight;
      caveMap, wallHeights := null, null;
    }

    /** `map` is allocated with the configured dimensions. */
    ghost predicate MapReady()
      reads this
    {
      caveMap != null && caveMap.Length0 == width && caveMap.Length1 == height
    }

    /** `wallHeights` is allocated too, apart from `map` and of the same size. */
    ghost predicate HeightsReady()
      reads this
    {
      MapReady() && wallHeights != null && wallHeights != caveMap &&
      wallHeights.Length0 == width && wallHeights.Length1 == height
    }

    /** Fills a fresh map: walls on the border, and inside a wall exactly where
        the cell's `Random.value` draw is below `fillPercent`. */
    method GenerateMap(randomValue: (int, int) -> real)
      modifies this`caveMap
      ensures MapReady() && fresh(caveMap)
      ensures Cells(caveMap) == InitialMap(width, height, fillPercent, randomValue)
    {
      var m := new int[width, height];
      ghost var g := InitialMap(width, height, fillPercent, randomValue);
      for x := 0 to width
        invariant forall i, j :: 0 <= i < x && 0 <= j < height ==> m[i, j] == g[i][j]
      {
        for y := 0 to height
          invariant forall i, j :: 0 <= i < x && 0 <= j < height ==> m[i, j] == g[i][j]
          invariant forall j :: 0 <= j < y ==> m[x, j] == g[x][j]
        {
          if x == 0 || y == 0 || x == width - 1 || y == height - 1 {
            m[x, y] := 1;
          } else {
            m[x, y] := if randomValue(x, y) < fillPercent then 1 else 0;
          }
        }
      }
      caveMap := m;
      CellsOfHolds(m, g);
    }

    /** `GetSurroundingWallCount(gridX, gridY)`: scans the 3x3 window column by
        column, adding 1 for each out-of-bounds position and the caveMap value of
        each in-bounds position other than the centre. */
    method GetSurroundingWallCount(gridX: int, gridY: int) returns (wallCount: int)
      requires MapReady()
      ensures wallCount == SurroundingWallCount(Cells(caveMap), width, height, gridX, gridY)
    {
      ghost var g := Cells(caveMap);
      wallCount := 0;
      var neighborX := gridX - 1;
      while neighborX <= gridX + 1
        invariant gridX - 1 <= neighborX <= gridX + 2
        invariant wallCount == WindowCount(g, width, height, gridX, gridY, neighborX - gridX + 1)
      {
        var neighborY := gridY - 1;
        while neighborY <= gridY + 1
          invariant gridY - 1 <= neighborY <= gridY + 2
          invariant wallCount == WindowCount(g, width, height, gridX, gridY, neighborX - gridX + 1)
                               + ColumnCount(g, width, height, gridX, gridY, neighborX, neighborY - gridY + 1)
        {
          if neighborX >= 0 && neighborX < width && neighborY >= 0 && neighborY < height {
            if neighborX != gridX || neighborY != gridY {
              wallCount := wallCount + caveMap[neighborX, neighborY];
            }
          } else {
            wallCount := wallCount + 1;
          }
          neighborY := neighborY + 1;
        }
        neighborX := neighborX + 1;
      }
    }

    /** Runs `smoothIterations` passes (none when it is not positive), each
        replacing the map by the smoothed copy `SmoothedCopy` builds. */
    method SmoothMap()
      requires MapReady()
      modifies this`caveMap
      ensures MapReady()
      ensures Cells(caveMap) == SmoothN(old(Cells(caveMap)), width, height, IterationCount(smoothIterations))
    {
      ghost var g0 := Cells(caveMap);
      var i := 0;
      while i < smoothIterations
        invariant 0 <= i <= IterationCount(smoothIterations)
        invariant MapReady()
        invariant Cells(caveMap) == SmoothN(g0, width, height, i)
      {
        var newMap := SmoothedCopy();
        caveMap := newMap;
        i := i + 1;
      }
    }

    /** One pass of `SmoothMap`: clones the map, then visits every interior
        cell and writes the majority-rule value into the clone, reading only
        the map, which the pass leaves as it was. */
    method SmoothedCopy() returns (newMap: array2<int>)
      requires MapReady()
      ensures fresh(newMap) && newMap.Length0 == width && newMap.Length1 == height
      ensures Cells(newMap) == SmoothPass(Cells(caveMap), width, height)
    {
      ghost var g := Cells(caveMap);
      var current := caveMap;
      newMap := new int[width, height]((a, b) reads current requires 0 <= a < width && 0 <= b < height => current[a, b]);
      var x := 1;
      while x < width - 1
        invariant 1 <= x && (2 <= width ==> x <= width - 1)
        invariant forall a, b :: 0 <= a < width && 0 <= b < height ==>
                    newMap[a, b] == if a < x then NextCell(g, width, height, a, b) else g[a][b]
      {
        var y := 1;
        while y < height - 1
          invariant 1 <= y && (2 <= height ==> y <= height - 1)
          invariant forall a, b :: 0 <= a < width && 0 <= b < height ==>
                      newMap[a, b] == if a < x || (a == x && b < y) then NextCell(g, width, height, a, b) else g[a][b]
        {
          var wallCount := GetSurroundingWallCount(x, y);
          if wallCount > 4 {
            newMap[x, y] := 1;
          } else if wallCount < 4 {
            newMap[x, y] := 0;
          }
          y := y + 1;
        }
        x := x + 1;
      }
      CellsOfHolds(newMap, SmoothPass(g, width, height));
    }

    /** Gives every wall cell the height `Random.Range(minWallHeight,
        maxWallHeight + 1)` draws for it, and every other cell 0. */
    method GenerateWallHeights(rangeDraw: (int, int) -> nat)
      requires MapReady()
      modifies this`wallHeights
      ensures HeightsReady() && fresh(wallHeights)
      ensures Cells(wallHeights) == InitialHeights(Cells(caveMap), width, height, minWallHeight, maxWallHeight, rangeDraw)
    {
      var m := caveMap;
      ghost var g := Cells(m);
      var hs := new int[width, height];
      for x := 0 to width
        invariant forall i, j :: 0 <= i < x && 0 <= j < height ==> hs[i, j] == InitialHeight(g, width, height, minWallHeight, maxWallHeight, rangeDraw, i, j)
      {
        for y := 0 to height
          invariant forall i, j :: 0 <= i < x && 0 <= j < height ==> hs[i, j] == InitialHeight(g, width, height, minWallHeight, maxWallHeight, rangeDraw, i, j)
          invariant forall j :: 0 <= j < y ==> hs[x, j] == InitialHeight(g, width, height, minWallHeight, maxWallHeight, rangeDraw, x, j)
        {
          if m[x, y] == 1 {
            hs[x, y] := RandomRange(minWallHeight, maxWallHeight + 1, rangeDraw(x, y));
          } else {
            hs[x, y] := 0;
          }
        }
      }
      wallHeights := hs;
      CellsOfHolds(hs, InitialHeights(g, width, height, minWallHeight, maxWallHeight, rangeDraw));
    }

    /** The count and height total of the wall cells in the 3x3 window of the
        interior cell (x, y), as the grids stand now. */
    method WindowSums(x: int, y: int) returns (totalHeight: int, wallCount: int)
      requires HeightsReady() && IsInterior(width, height, x, y)
      ensures wallCount == WindowWalls(Cells(caveMap), width, height, x, y, 3)
      ensures totalHeight == WindowTotal(Cells(caveMap), Cells(wallHeights), width, height, x, y, 3)
    {
      ghost var m, hs := Cells(caveMap), Cells(wallHeights);
      totalHeight, wallCount := 0, 0;
      for neighborX := x - 1 to x + 2
        invariant wallCount == WindowWalls(m, width, height, x, y, neighborX - x + 1)
        invariant totalHeight == WindowTotal(m, hs, width, height, x, y, neighborX - x + 1)
      {
        for neighborY := y - 1 to y + 2
          invariant wallCount == WindowWalls(m, width, height, x, y, neighborX - x + 1)
                               + ColumnWalls(m, width, height, x, y, neighborX, neighborY - y + 1)
          invariant totalHeight == WindowTotal(m, hs, width, height, x, y, neighborX - x + 1)
                                 + ColumnTotal(m, hs, width, height, x, y, neighborX, neighborY - y + 1)
        {
          if caveMap[neighborX, neighborY] == 1 {
            totalHeight := totalHeight + wallHeights[neighborX, neighborY];
            wallCount := wallCount + 1;
          }
        }
      }
    }

    /** The visit of `SmoothWallHeights` to the interior cell (x, y): a wall
        cell gets the rounded mean of the wall heights in its window. */
    method SmoothCell(x: int, y: int)
      requires HeightsReady() && IsInterior(width, height, x, y)
      modifies wallHeights
      ensures Cells(wallHeights) == StepCell(Cells(caveMap), old(Cells(wallHeights)), width, height, x, y)
    {
      ghost var m, hs := Cells(caveMap), Cells(wallHeights);
      if caveMap[x, y] == 1 {
        var totalHeight, wallCount := WindowSums(x, y);
        if wallCount > 0 {
          wallHeights[x, y] := RoundHalfEven(totalHeight, wallCount);
        }
      }
      CellsOfHolds(wallHeights, StepCell(m, hs, width, height, x, y));
    }

    /** One pass over the interior in x-major, y-minor order that replaces the
        height of each wall cell by the rounded mean of the wall heights in its
        3x3 window, as they stand at that moment: cells visited earlier in the
        pass contribute their new heights. The map is only read. */
    method SmoothWallHeights()
      requires HeightsReady()
      modifies wallHeights
      ensures Cells(caveMap) == old(Cells(caveMap))
      ensures Cells(wallHeights) == SmoothHeights(Cells(caveMap), old(Cells(wallHeights)), width, height)
    {
      ghost var m := Cells(caveMap);
      ghost var h0 := Cells(wallHeights);
      if width < 2 || height < 2 {
        // No interior cell: neither loop below would run.
        return;
      }
      for x := 1 to width - 1
        invariant Cells(caveMap) == m
        invariant Cells(wallHeights) == SmoothColumns(m, h0, width, height, x - 1)
      {
        SmoothColumnCells(x);
      }
    }

    /** The inner loop of `SmoothWallHeights` over the interior cells of
        column x, in increasing y. */
    method SmoothColumnCells(x: int)
      requires HeightsReady() && 1 <= x < width - 1 && 2 <= height
      modifies wallHeights
      ensures Cells(wallHeights) == SmoothColumn(Cells(caveMap), old(Cells(wallHeights)), width, height, x, height - 2)
    {
      ghost var m := Cells(caveMap);
      ghost var hx := Cells(wallHeights);
      for y := 1 to height - 1
        invariant Cells(caveMap) == m
        invariant Cells(wallHeights) == SmoothColumn(m, hx, width, height, x, y - 1)
      {
        SmoothCell(x, y);
      }
    }
  }
}
