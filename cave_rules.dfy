/** The occupancy rules of the cellular-automaton cave layout, as functions of
    grid values: the initial random fill, the 8-neighbour wall count with
    out-of-bounds positions counted as walls, and the double-buffered
    majority-rule smoothing pass. 1 is a wall, 0 is open floor. */
module CaveRules {
  import opened Grids

  /** A cave map: a 0/1 grid whose border cells are all walls. */
  ghost predicate IsCaveMap(g: Grid, w: int, h: int)
  {
    IsBinary(g, w, h) && forall x, y :: InBounds(w, h, x, y) && IsBorder(w, h, x, y) ==> g[x][y] == 1
  }

  // ---------------------------------------------------------------- initial fill

  /** The cell that `GenerateMap` writes at (x, y). `randomValue(x, y)` is the
      `Random.value` draw taken for that interior cell. */
  function InitialCell(w: int, h: int, fillPercent: real, randomValue: (int, int) -> real, x: int, y: int): int
  {
    if IsBorder(w, h, x, y) then 1
    else if randomValue(x, y) < fillPercent then 1
    else 0
  }

  /** The map `GenerateMap` produces. */
  function InitialMap(w: nat, h: nat, fillPercent: real, randomValue: (int, int) -> real): (g: Grid)
    ensures IsCaveMap(g, w, h)
    ensures forall x, y :: InBounds(w, h, x, y) && !IsBorder(w, h, x, y) ==>
              (g[x][y] == 1 <==> randomValue(x, y) < fillPercent)
  {
    seq(w, x => seq(h, y => InitialCell(w, h, fillPercent, randomValue, x, y)))
  }

  // ---------------------------------------------------------------- wall count

  /** What the neighbour at (nx, ny) adds to the wall count of (cx, cy):
      1 when out of bounds, nothing for the centre, the cell's value otherwise. */
  function Contribution(g: Grid, w: int, h: int, cx: int, cy: int, nx: int, ny: int): int
    requires IsGrid(g, w, h)
  {
    if InBounds(w, h, nx, ny) then
      if nx != cx || ny != cy then g[nx][ny] else 0
    else 1
  }

  /** Sum over the first `n` rows `cy - 1 .. cy - 2 + n` of column `nx`. */
  function ColumnCount(g: Grid, w: int, h: int, cx: int, cy: int, nx: int, n: nat): int
    requires IsGrid(g, w, h)
  {
    if n == 0 then 0
    else ColumnCount(g, w, h, cx, cy, nx, n - 1) + Contribution(g, w, h, cx, cy, nx, cy - 2 + n)
  }

  /** Sum over the first `m` columns `cx - 1 .. cx - 2 + m` of the 3x3 window. */
  function WindowCount(g: Grid, w: int, h: int, cx: int, cy: int, m: nat): int
    requires IsGrid(g, w, h)
  {
    if m == 0 then 0
    else WindowCount(g, w, h, cx, cy, m - 1) + ColumnCount(g, w, h, cx, cy, cx - 2 + m, 3)
  }

  /** `GetSurroundingWallCount(x, y)` on map `g`, scanning the window column by column. */
  function SurroundingWallCount(g: Grid, w: int, h: int, x: int, y: int): int
    requires IsGrid(g, w, h)
  {
    WindowCount(g, w, h, x, y, 3)
  }

  /** The nine contributions of the window, written out. */
  lemma WallCountUnfold(g: Grid, w: int, h: int, x: int, y: int)
    requires IsGrid(g, w, h)
    ensures SurroundingWallCount(g, w, h, x, y) ==
      Contribution(g, w, h, x, y, x - 1, y - 1) + Contribution(g, w, h, x, y, x - 1, y) + Contribution(g, w, h, x, y, x - 1, y + 1) +
      Contribution(g, w, h, x, y, x, y - 1) + Contribution(g, w, h, x, y, x, y) + Contribution(g, w, h, x, y, x, y + 1) +
      Contribution(g, w, h, x, y, x + 1, y - 1) + Contribution(g, w, h, x, y, x + 1, y) + Contribution(g, w, h, x, y, x + 1, y + 1)
  {
    forall nx | x - 1 <= nx <= x + 1
      ensures ColumnCount(g, w, h, x, y, nx, 3) ==
        Contribution(g, w, h, x, y, nx, y - 1) + Contribution(g, w, h, x, y, nx, y) + Contribution(g, w, h, x, y, nx, y + 1)
    {
      assert ColumnCount(g, w, h, x, y, nx, 1) == Contribution(g, w, h, x, y, nx, y - 1);
      assert ColumnCount(g, w, h, x, y, nx, 2) == ColumnCount(g, w, h, x, y, nx, 1) + Contribution(g, w, h, x, y, nx, y);
    }
    assert WindowCount(g, w, h, x, y, 1) == ColumnCount(g, w, h, x, y, x - 1, 3);
    assert WindowCount(g, w, h, x, y, 2) == WindowCount(g, w, h, x, y, 1) + ColumnCount(g, w, h, x, y, x, 3);
  }

  /** On a 0/1 map the count of an in-bounds cell is between 0 and 8. */
  lemma WallCountBounds(g: Grid, w: int, h: int, x: int, y: int)
    requires IsBinary(g, w, h) && InBounds(w, h, x, y)
    ensures 0 <= SurroundingWallCount(g, w, h, x, y) <= 8
  {
    WallCountUnfold(g, w, h, x, y);
    forall nx, ny | x - 1 <= nx <= x + 1 && y - 1 <= ny <= y + 1
      ensures 0 <= Contribution(g, w, h, x, y, nx, ny) <= 1
    {
      if InBounds(w, h, nx, ny) {
        assert g[nx][ny] == 0 || g[nx][ny] == 1;
      }
    }
  }

  /** The sum of the eight neighbours, as a reference definition. */
  function NeighbourSum(g: Grid, w: int, h: int, x: int, y: int): int
    requires IsGrid(g, w, h) && IsInterior(w, h, x, y)
  {
    g[x - 1][y - 1] + g[x - 1][y] + g[x - 1][y + 1] +
    g[x][y - 1] + g[x][y + 1] +
    g[x + 1][y - 1] + g[x + 1][y] + g[x + 1][y + 1]
  }

  /** An interior cell's window lies inside the grid, so its count is exactly
      the number of walls among its eight neighbours: the out-of-bounds rule
      never fires while smoothing. */
  lemma WallCountInterior(g: Grid, w: int, h: int, x: int, y: int)
    requires IsGrid(g, w, h) && IsInterior(w, h, x, y)
    ensures SurroundingWallCount(g, w, h, x, y) == NeighbourSum(g, w, h, x, y)
  {
    WallCountUnfold(g, w, h, x, y);
  }

  /** How many of `c - 1`, `c`, `c + 1` lie in `[0, n)`. */
  function Span(c: int, n: int): int
  {
    (if 0 <= c - 1 < n then 1 else 0) + (if 0 <= c < n then 1 else 0) + (if 0 <= c + 1 < n then 1 else 0)
  }

  /** On a map whose every cell is `v`, an in-bounds cell counts each of the
      `9 - Span * Span` out-of-bounds window positions as a wall and `v` for
      each of the other in-bounds positions besides itself. */
  lemma WallCountUniform(g: Grid, w: int, h: int, v: int, x: int, y: int)
    requires IsUniform(g, w, h, v) && InBounds(w, h, x, y)
    ensures SurroundingWallCount(g, w, h, x, y) == (9 - Span(x, w) * Span(y, h)) + v * (Span(x, w) * Span(y, h) - 1)
  {
    WallCountUnfold(g, w, h, x, y);
    forall nx, ny | x - 1 <= nx <= x + 1 && y - 1 <= ny <= y + 1
      ensures Contribution(g, w, h, x, y, nx, ny) ==
        if !InBounds(w, h, nx, ny) then 1 else if nx == x && ny == y then 0 else v
    {
    }
    var a, b := Span(x, w), Span(y, h);
    var ia := (if 0 <= x - 1 then 1 else 0);
    var ib := (if x + 1 < w then 1 else 0);
    var ja := (if 0 <= y - 1 then 1 else 0);
    var jb := (if y + 1 < h then 1 else 0);
    assert a == ia + 1 + ib && b == ja + 1 + jb;
  }

  /** Every in-bounds cell of an all-wall map counts 8. */
  lemma WallCountAllWalls(g: Grid, w: int, h: int, x: int, y: int)
    requires IsUniform(g, w, h, 1) && InBounds(w, h, x, y)
    ensures SurroundingWallCount(g, w, h, x, y) == 8
  {
    WallCountUniform(g, w, h, 1, x, y);
  }

  // ---------------------------------------------------------------- smoothing

  /** The value one smoothing pass gives (x, y), reading only the previous map:
      more than 4 walls around makes a wall, fewer than 4 makes floor, exactly
      4 keeps the cell; border cells are not visited. */
  function NextCell(g: Grid, w: int, h: int, x: int, y: int): int
    requires IsGrid(g, w, h) && InBounds(w, h, x, y)
  {
    if IsBorder(w, h, x, y) then g[x][y]
    else
      var count := SurroundingWallCount(g, w, h, x, y);
      if count > 4 then 1 else if count < 4 then 0 else g[x][y]
  }

  /** One double-buffered pass of `SmoothMap`. */
  function SmoothPass(g: Grid, w: nat, h: nat): (r: Grid)
    requires IsGrid(g, w, h)
    ensures IsGrid(r, w, h)
    ensures forall x, y :: InBounds(w, h, x, y) ==> r[x][y] == NextCell(g, w, h, x, y)
  {
    seq(w, x requires 0 <= x < w => seq(h, y requires 0 <= y < h => NextCell(g, w, h, x, y)))
  }

  /** `n` passes, the last one applied last. */
  function SmoothN(g: Grid, w: nat, h: nat, n: nat): (r: Grid)
    requires IsGrid(g, w, h)
    ensures IsGrid(r, w, h)
  {
    if n == 0 then g else SmoothPass(SmoothN(g, w, h, n - 1), w, h)
  }

  /** The number of passes `for (i = 0; i < smoothIterations; i++)` makes. */
  function IterationCount(smoothIterations: int): nat
  {
    if smoothIterations < 0 then 0 else smoothIterations
  }

  /** A pass never changes a border cell and keeps a 0/1 map 0/1. */
  lemma SmoothPassKeepsBorderAndValues(g: Grid, w: nat, h: nat)
    requires IsGrid(g, w, h)
    ensures forall x, y :: InBounds(w, h, x, y) && IsBorder(w, h, x, y) ==> SmoothPass(g, w, h)[x][y] == g[x][y]
    ensures IsBinary(g, w, h) ==> IsBinary(SmoothPass(g, w, h), w, h)
  {
  }

  /** Any number of passes leaves every border cell as it was. */
  lemma {:induction false} SmoothNKeepsBorder(g: Grid, w: nat, h: nat, n: nat, x: int, y: int)
    requires IsGrid(g, w, h) && InBounds(w, h, x, y) && IsBorder(w, h, x, y)
    ensures SmoothN(g, w, h, n)[x][y] == g[x][y]
  {
    if n > 0 {
      var prev := SmoothN(g, w, h, n - 1);
      SmoothNKeepsBorder(g, w, h, n - 1, x, y);
      assert SmoothN(g, w, h, n)[x][y] == NextCell(prev, w, h, x, y);
    }
  }

  /** Any number of passes turns a cave map into a cave map. */
  lemma SmoothNKeepsCaveMap(g: Grid, w: nat, h: nat, n: nat)
    requires IsCaveMap(g, w, h)
    ensures IsCaveMap(SmoothN(g, w, h, n), w, h)
  {
    assert SmoothN(g, w, h, 0) == g;
    var i := 0;
    while i < n
      invariant i <= n && IsCaveMap(SmoothN(g, w, h, i), w, h)
    {
      SmoothStepKeepsCaveMap(g, w, h, i + 1);
      i := i + 1;
    }
  }

  /** Pass `n` turns the cave map of pass `n - 1` into a cave map. */
  lemma SmoothStepKeepsCaveMap(g0: Grid, w: nat, h: nat, n: nat)
    requires IsGrid(g0, w, h) && 0 < n && IsCaveMap(SmoothN(g0, w, h, n - 1), w, h)
    ensures IsCaveMap(SmoothN(g0, w, h, n), w, h)
  {
    SmoothPassKeepsBorderAndValues(SmoothN(g0, w, h, n - 1), w, h);
  }

  /** An all-wall map and an all-floor map are fixed points of a pass: every
      in-bounds count is 8 in the first, every interior count 0 in the second. */
  lemma SmoothPassUniform(g: Grid, w: nat, h: nat, v: int)
    requires IsUniform(g, w, h, v) && (v == 0 || v == 1)
    ensures SmoothPass(g, w, h) == g
  {
    var r := SmoothPass(g, w, h);
    forall x | 0 <= x < w
      ensures r[x] == g[x]
    {
      forall y | 0 <= y < h
        ensures r[x][y] == g[x][y]
      {
        if !IsBorder(w, h, x, y) {
          if v == 1 {
            WallCountAllWalls(g, w, h, x, y);
          } else {
            WallCountInterior(g, w, h, x, y);
          }
        }
      }
    }
  }

  /** ... and so of any number of passes. */
  lemma {:induction false} SmoothNUniform(g: Grid, w: nat, h: nat, v: int, n: nat)
    requires IsUniform(g, w, h, v) && (v == 0 || v == 1)
    ensures SmoothN(g, w, h, n) == g
  {
    if n > 0 {
      SmoothNUniform(g, w, h, v, n - 1);
      SmoothPassUniform(g, w, h, v);
    }
  }
}
