/** Integer grids as values, and the bridge from the `int[,]` arrays the
    generator mutates to those values. A grid is indexed `g[x][y]`, like the
    arrays `map[x, y]` and `wallHeights[x, y]`. */
module Grids {

  type Grid = seq<seq<int>>

  /** `g` is a `w` by `h` rectangle. */
  predicate IsGrid(g: Grid, w: int, h: int)
  {
    |g| == w && forall x :: 0 <= x < w ==> |g[x]| == h
  }

  predicate InBounds(w: int, h: int, x: int, y: int)
  {
    0 <= x < w && 0 <= y < h
  }

  /** The outermost ring of cells: first or last column, first or last row. */
  predicate IsBorder(w: int, h: int, x: int, y: int)
  {
    x == 0 || y == 0 || x == w - 1 || y == h - 1
  }

  /** The cells the smoothing loops visit: `1 <= x < w - 1`, `1 <= y < h - 1`. */
  predicate IsInterior(w: int, h: int, x: int, y: int)
  {
    1 <= x < w - 1 && 1 <= y < h - 1
  }

  /** Every cell of `g` equals `v`. */
  ghost predicate IsUniform(g: Grid, w: int, h: int, v: int)
  {
    IsGrid(g, w, h) && forall x, y :: InBounds(w, h, x, y) ==> g[x][y] == v
  }

  /** Every cell of `g` is 0 (open) or 1 (wall). */
  ghost predicate IsBinary(g: Grid, w: int, h: int)
  {
    IsGrid(g, w, h) && forall x, y :: InBounds(w, h, x, y) ==> g[x][y] == 0 || g[x][y] == 1
  }

  /** The array `a` holds exactly the grid `g`. */
  ghost predicate Holds(a: array2<int>, g: Grid)
    reads a
  {
    IsGrid(g, a.Length0, a.Length1) &&
    forall x, y :: 0 <= x < a.Length0 && 0 <= y < a.Length1 ==> a[x, y] == g[x][y]
  }

  /** The grid an array currently holds. */
  ghost function Cells(a: array2<int>): (g: Grid)
    reads a
    ensures Holds(a, g)
  {
    seq(a.Length0, x requires 0 <= x < a.Length0 reads a =>
      seq(a.Length1, y requires 0 <= y < a.Length1 reads a => a[x, y]))
  }

  /** An array holds one grid only. */
  lemma CellsOfHolds(a: array2<int>, g: Grid)
    requires Holds(a, g)
    ensures Cells(a) == g
  {
    var c := Cells(a);
    forall x | 0 <= x < a.Length0
      ensures c[x] == g[x]
    {
      assert |c[x]| == |g[x]|;
      forall y | 0 <= y < a.Length1
        ensures c[x][y] == g[x][y]
      {
      }
    }
  }
}
