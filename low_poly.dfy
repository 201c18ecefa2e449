/** Index layout of the low-poly floor mesh. Vertex (x, z) of a `width` by
    `depth` grid is stored at `x * depth + z`; each cell (x, z) with
    `x < width - 1` and `z < depth - 1` contributes two triangles, six entries
    of the triangle buffer, whose corners are addressed from the cell's first
    vertex with a neighbour stride. The generator uses the stride `width`;
    the vertex numbering calls for `depth`. Both are defined here, with what
    each guarantees. */
module LowPoly {

  /** A vertex position: the grid coordinates and the noise-displaced height. */
  datatype Vertex = Vertex(x: int, y: real, z: int)

  /** The value an unwritten `Vector3` slot holds. */
  const Origin := Vertex(0, 0.0, 0)

  /** `new Vector3[width * depth]` and `new int[(width - 1) * (depth - 1) * 6]`
      succeed only for non-negative lengths. */
  predicate BuffersAllocatable(width: int, depth: int)
  {
    0 <= width * depth && 0 <= (width - 1) * (depth - 1) * 6
  }

  /** Where the vertex of grid point (x, z) is stored. */
  function VertexIndex(x: int, z: int, depth: int): int
  {
    x * depth + z
  }

  /** The six entries written for the cell whose first vertex is `v`, with
      neighbour stride `stride`. */
  function CellIndices(v: int, stride: int): seq<int>
  {
    [v, v + stride + 1, v + stride, v, v + 1, v + stride + 1]
  }

  /** The two triangles over the four corners of cell (x, z), in the same
      winding: (x, z), (x+1, z+1), (x+1, z) and (x, z), (x, z+1), (x+1, z+1). */
  function CellCorners(x: int, z: int, depth: int): seq<int>
  {
    [VertexIndex(x, z, depth), VertexIndex(x + 1, z + 1, depth), VertexIndex(x + 1, z, depth),
     VertexIndex(x, z, depth), VertexIndex(x, z + 1, depth), VertexIndex(x + 1, z + 1, depth)]
  }

  // ---------------------------------------------------------------- vertices

  /** The vertices of column x for z in `[0, n)`; `noise(x, z)` is the Perlin
      sample at that grid point. */
  function ColumnVertices(x: int, n: nat, noise: (int, int) -> real, noiseStrength: real): (r: seq<Vertex>)
    ensures |r| == n
  {
    seq(n, z => Vertex(x, noise(x, z) * noiseStrength, z))
  }

  /** The vertices of columns `[0, k)`, each `depth` long. */
  function GridVertices(depth: int, k: nat, noise: (int, int) -> real, noiseStrength: real): seq<Vertex>
  {
    if k == 0 then []
    else GridVertices(depth, k - 1, noise, noiseStrength) + ColumnVertices(k - 1, if depth < 0 then 0 else depth, noise, noiseStrength)
  }

  /** Every vertex the generator writes, in the order it writes them. */
  function LowPolyVertices(width: int, depth: int, noise: (int, int) -> real, noiseStrength: real): seq<Vertex>
  {
    GridVertices(depth, if width < 0 then 0 else width, noise, noiseStrength)
  }

  /** `k` columns of `depth` vertices: the vertex of (x, z) sits at `x * depth + z`. */
  lemma {:induction false} GridVerticesAt(depth: nat, k: nat, noise: (int, int) -> real, noiseStrength: real, x: int, z: int)
    ensures |GridVertices(depth, k, noise, noiseStrength)| == k * depth
    ensures 0 <= x < k && 0 <= z < depth ==>
              0 <= VertexIndex(x, z, depth) < k * depth &&
              GridVertices(depth, k, noise, noiseStrength)[VertexIndex(x, z, depth)] == Vertex(x, noise(x, z) * noiseStrength, z)
  {
    if k > 0 {
      GridVerticesAt(depth, k - 1, noise, noiseStrength, x, z);
      assert k * depth == (k - 1) * depth + depth;
      if 0 <= x < k - 1 && 0 <= z < depth {
        assert VertexIndex(x, z, depth) < (k - 1) * depth by {
          assert x * depth + depth <= (k - 1) * depth;
        }
      }
    }
  }

  // ---------------------------------------------------------------- triangles

  /** The entries the loop writes at grid point (x, z): a cell's six when
      (x, z) is not in the last column or row, none otherwise. */
  function CellEntries(width: int, depth: int, stride: int, x: int, z: int): seq<int>
  {
    if x < width - 1 && z < depth - 1 then CellIndices(VertexIndex(x, z, depth), stride) else []
  }

  /** The entries written for grid points (x, 0) .. (x, n - 1). */
  function ColumnEntries(width: int, depth: int, stride: int, x: int, n: nat): seq<int>
  {
    if n == 0 then []
    else ColumnEntries(width, depth, stride, x, n - 1) + CellEntries(width, depth, stride, x, n - 1)
  }

  /** The entries written for columns `[0, k)`. */
  function GridEntries(width: int, depth: int, stride: int, k: nat): seq<int>
  {
    if k == 0 then []
    else GridEntries(width, depth, stride, k - 1) + ColumnEntries(width, depth, stride, k - 1, if depth < 0 then 0 else depth)
  }

  /** Every triangle-buffer entry the generator writes, in order. */
  function LowPolyTriangles(width: int, depth: int, stride: int): seq<int>
  {
    GridEntries(width, depth, stride, if width < 0 then 0 else width)
  }

  /** Cells of column x among its first `n` grid points. */
  function CellsIn(width: int, depth: int, x: int, n: int): int
  {
    if x < width - 1 && 0 < depth - 1 then (if n < depth - 1 then n else depth - 1) else 0
  }

  lemma {:induction false} ColumnEntriesLength(width: int, depth: int, stride: int, x: int, n: nat)
    ensures |ColumnEntries(width, depth, stride, x, n)| == 6 * CellsIn(width, depth, x, n)
  {
    if n > 0 {
      ColumnEntriesLength(width, depth, stride, x, n - 1);
    }
  }

  /** `k` columns hold `6 * (depth - 1)` entries each, save the last column of
      the grid, which holds none. */
  lemma {:induction false} GridEntriesLength(width: int, depth: int, stride: int, k: nat)
    requires 1 <= width && 1 <= depth && k <= width
    ensures |GridEntries(width, depth, stride, k)| == 6 * (depth - 1) * (if k < width then k else width - 1)
  {
    if k > 0 {
      GridEntriesLength(width, depth, stride, k - 1);
      ColumnEntriesLength(width, depth, stride, k - 1, depth);
      assert |GridEntries(width, depth, stride, k - 1)| == 6 * (depth - 1) * (k - 1);
      if k < width {
        assert CellsIn(width, depth, k - 1, depth) == depth - 1;
        assert 6 * (depth - 1) * (k - 1) + 6 * (depth - 1) == 6 * (depth - 1) * k;
      } else {
        assert CellsIn(width, depth, k - 1, depth) == 0;
      }
    }
  }

  /** Entry `j` of cell (x, z) follows the entries of the columns before x
      and the `z` cells above it in column x, in the entries of any `k > x`
      columns. */
  lemma {:induction false} GridEntriesAt(width: int, depth: int, stride: int, k: nat, x: nat, z: int, j: int)
    requires x < k <= width && x < width - 1 && 0 <= z < depth - 1 && 0 <= j < 6
    ensures |GridEntries(width, depth, stride, x)| + 6 * z + j < |GridEntries(width, depth, stride, k)|
    ensures GridEntries(width, depth, stride, k)[|GridEntries(width, depth, stride, x)| + 6 * z + j]
         == CellIndices(VertexIndex(x, z, depth), stride)[j]
  {
    var prev := GridEntries(width, depth, stride, k - 1);
    var col := ColumnEntries(width, depth, stride, k - 1, depth);
    assert GridEntries(width, depth, stride, k) == prev + col;
    var i := |GridEntries(width, depth, stride, x)| + 6 * z + j;
    if x < k - 1 {
      GridEntriesAt(width, depth, stride, k - 1, x, z, j);
      assert (prev + col)[i] == prev[i];
    } else {
      ColumnEntriesAt(width, depth, stride, x, depth, z, j);
      assert (prev + col)[i] == col[6 * z + j];
    }
  }

  /** ... which is position `6 * (x * (depth - 1) + z) + j`, as every column
      before the last holds `depth - 1` cells. */
  lemma CellEntryPosition(width: int, depth: int, stride: int, x: nat, z: int, j: int)
    requires x < width - 1 && 0 <= z < depth - 1 && 0 <= j < 6
    ensures |GridEntries(width, depth, stride, x)| + 6 * z + j == 6 * (x * (depth - 1) + z) + j
  {
    GridEntriesLength(width, depth, stride, x);
    assert 6 * (depth - 1) * x == 6 * (x * (depth - 1));
  }

  lemma MulMonotone(a: int, b: int, c: int)
    requires a <= b && 0 <= c
    ensures a * c <= b * c
  {
  }

  lemma {:induction false} ColumnEntriesAt(width: int, depth: int, stride: int, x: int, n: nat, z: int, j: int)
    requires x < width - 1 && n <= depth && 0 <= z < n && z < depth - 1 && 0 <= j < 6
    ensures 6 * z + j < |ColumnEntries(width, depth, stride, x, n)|
    ensures ColumnEntries(width, depth, stride, x, n)[6 * z + j] == CellIndices(VertexIndex(x, z, depth), stride)[j]
  {
    var prev := ColumnEntries(width, depth, stride, x, n - 1);
    var cell := CellEntries(width, depth, stride, x, n - 1);
    assert ColumnEntries(width, depth, stride, x, n) == prev + cell;
    if z < n - 1 {
      ColumnEntriesAt(width, depth, stride, x, n - 1, z, j);
      assert (prev + cell)[6 * z + j] == prev[6 * z + j];
    } else {
      ColumnEntriesLength(width, depth, stride, x, n - 1);
      assert CellsIn(width, depth, x, n - 1) == z;
      assert cell == CellIndices(VertexIndex(x, z, depth), stride);
      assert (prev + cell)[6 * z + j] == cell[j];
    }
  }

  /** Every entry of the first `k` columns lies between 0 and
      `(width - 1) * depth + stride - 1`, the largest index of the last cell of
      the grid, as only columns before `width - 1` hold cells. */
  lemma {:induction false} GridEntriesBounded(width: int, depth: int, stride: int, k: nat)
    requires 0 <= depth && 0 <= stride && k <= width
    ensures forall i :: 0 <= i < |GridEntries(width, depth, stride, k)| ==>
              0 <= GridEntries(width, depth, stride, k)[i] <= (width - 1) * depth + stride - 1
  {
    if k > 0 {
      GridEntriesBounded(width, depth, stride, k - 1);
      ColumnEntriesBounded(width, depth, stride, k - 1, depth);
      if k - 1 < width - 1 {
        MulMonotone(k, width - 1, depth);
        assert (k - 1) * depth + depth == k * depth;
      }
    }
  }

  /** The entries of column x lie between its first vertex and its last
      vertex plus the stride. */
  lemma ColumnEntriesBounded(width: int, depth: int, stride: int, x: nat, n: nat)
    requires 0 <= stride && n <= depth
    ensures |ColumnEntries(width, depth, stride, x, n)| > 0 ==> x < width - 1
    ensures forall i :: 0 <= i < |ColumnEntries(width, depth, stride, x, n)| ==>
              VertexIndex(x, 0, depth) <= ColumnEntries(width, depth, stride, x, n)[i] &&
              ColumnEntries(width, depth, stride, x, n)[i] <= VertexIndex(x, depth - 1, depth) + stride
  {
    if |ColumnEntries(width, depth, stride, x, n)| > 0 {
      ColumnEntryBounded(width, depth, stride, x, n, 0);
    }
    forall i | 0 <= i < |ColumnEntries(width, depth, stride, x, n)|
      ensures VertexIndex(x, 0, depth) <= ColumnEntries(width, depth, stride, x, n)[i]
      ensures ColumnEntries(width, depth, stride, x, n)[i] <= VertexIndex(x, depth - 1, depth) + stride
    {
      ColumnEntryBounded(width, depth, stride, x, n, i);
    }
  }

  lemma {:induction false} ColumnEntryBounded(width: int, depth: int, stride: int, x: nat, n: nat, i: int)
    requires 0 <= stride && n <= depth && 0 <= i < |ColumnEntries(width, depth, stride, x, n)|
    ensures x < width - 1 && VertexIndex(x, 0, depth) <= ColumnEntries(width, depth, stride, x, n)[i]
    ensures ColumnEntries(width, depth, stride, x, n)[i] <= VertexIndex(x, depth - 1, depth) + stride
  {
    var prev := ColumnEntries(width, depth, stride, x, n - 1);
    var cell := CellEntries(width, depth, stride, x, n - 1);
    assert ColumnEntries(width, depth, stride, x, n) == prev + cell;
    if i < |prev| {
      ColumnEntryBounded(width, depth, stride, x, n - 1, i);
    } else {
      var v := VertexIndex(x, n - 1, depth);
      assert cell == CellIndices(v, stride);
      assert n - 1 < depth - 1;
    }
  }

  // ---------------------------------------------------------------- what the layout guarantees

  /** For a grid of at least one point in each direction the two buffers are
      filled exactly: `width * depth` vertices and `(width - 1) * (depth - 1)`
      cells of six entries, whatever the stride. */
  lemma BuffersFilledExactly(width: int, depth: int, stride: int, noise: (int, int) -> real, noiseStrength: real)
    requires 1 <= width && 1 <= depth
    ensures |LowPolyVertices(width, depth, noise, noiseStrength)| == width * depth
    ensures |LowPolyTriangles(width, depth, stride)| == (width - 1) * (depth - 1) * 6
  {
    GridVerticesAt(depth, width, noise, noiseStrength, 0, 0);
    GridEntriesLength(width, depth, stride, width);
  }

  /** With no grid points at all the triangle buffer is still allocated with
      six entries, and none of them is written. */
  lemma EmptyGridLeavesEntriesUnwritten(stride: int)
    ensures BuffersAllocatable(0, 0)
    ensures (0 - 1) * (0 - 1) * 6 == 6 && LowPolyTriangles(0, 0, stride) == []
  {
  }

  /** As written, with stride `width`: on a grid of at least 2 by 2 points every
      entry is a valid vertex index exactly when `width <= depth`. The largest
      entry is `(width - 1) * depth + width - 1`, entry 1 of the last cell. */
  lemma IndicesInRangeIff(width: int, depth: int)
    requires 2 <= width && 2 <= depth
    ensures (forall i :: 0 <= i < |LowPolyTriangles(width, depth, width)| ==>
               0 <= LowPolyTriangles(width, depth, width)[i] < width * depth)
            <==> width <= depth
  {
    var t := LowPolyTriangles(width, depth, width);
    GridEntriesBounded(width, depth, width, width);
    if width <= depth {
      assert (width - 1) * depth + depth == width * depth;
    } else {
      var x, z := width - 2, depth - 2;
      GridEntriesAt(width, depth, width, width, x, z, 1);
      var i := |GridEntries(width, depth, width, x)| + 6 * z + 1;
      assert t[i] == VertexIndex(x, z, depth) + width + 1;
      assert t[i] == (width - 1) * depth + width - 1;
      assert (width - 1) * depth + width - 1 >= width * depth;
    }
  }

  /** As written, the six entries of a cell are the two triangles over its own
      four corners exactly when the stride `width` equals `depth`. */
  lemma CellCornersIff(width: int, depth: int, x: int, z: int)
    ensures CellIndices(VertexIndex(x, z, depth), width) == CellCorners(x, z, depth) <==> width == depth
  {
    if CellIndices(VertexIndex(x, z, depth), width) == CellCorners(x, z, depth) {
      assert CellIndices(VertexIndex(x, z, depth), width)[2] == CellCorners(x, z, depth)[2];
    }
  }

  /** The 3 by 3 floor: 9 vertices, 24 entries (8 triangles), every entry a
      valid vertex index. */
  lemma ThreeByThreeFloor(noise: (int, int) -> real, noiseStrength: real)
    ensures |LowPolyVertices(3, 3, noise, noiseStrength)| == 9
    ensures |LowPolyTriangles(3, 3, 3)| == 24
    ensures forall i :: 0 <= i < 24 ==> 0 <= LowPolyTriangles(3, 3, 3)[i] < 9
  {
    BuffersFilledExactly(3, 3, 3, noise, noiseStrength);
    IndicesInRangeIff(3, 3);
  }

  /** A grid wider than deep: on 3 by 2 points the as-written layout refers to
      vertex 6 of a 6-vertex buffer. */
  lemma WideGridOverrun()
    ensures |LowPolyTriangles(3, 2, 3)| == 12 && LowPolyTriangles(3, 2, 3)[7] == 6 == 3 * 2
  {
    GridEntriesAt(3, 2, 3, 3, 1, 0, 1);
    CellEntryPosition(3, 2, 3, 1, 0, 1);
    GridEntriesLength(3, 2, 3, 3);
  }

  /** A grid deeper than wide: on 2 by 3 points the first triangle of cell
      (0, 0) joins (0, 0), (1, 0) and (0, 2), which is not a cell of the grid. */
  lemma NarrowGridMisconnects()
    ensures LowPolyTriangles(2, 3, 2)[..3] == [VertexIndex(0, 0, 3), VertexIndex(1, 0, 3), VertexIndex(0, 2, 3)]
    ensures LowPolyTriangles(2, 3, 2)[..3] != CellCorners(0, 0, 3)[..3]
  {
    GridEntriesAt(2, 3, 2, 2, 0, 0, 0);
    GridEntriesAt(2, 3, 2, 2, 0, 0, 1);
    GridEntriesAt(2, 3, 2, 2, 0, 0, 2);
  }

  /** With the stride `depth` that the vertex numbering calls for, every entry
      is a valid vertex index on every grid of at least one point each way. */
  lemma CorrectedIndicesInRange(width: int, depth: int)
    requires 1 <= width && 1 <= depth
    ensures forall i :: 0 <= i < |LowPolyTriangles(width, depth, depth)| ==>
              0 <= LowPolyTriangles(width, depth, depth)[i] < width * depth
  {
    GridEntriesBounded(width, depth, depth, width);
    assert (width - 1) * depth + depth == width * depth;
  }

  /** ... and every cell's entries are the two triangles over its own corners. */
  lemma CorrectedCellCorners(width: int, depth: int, x: int, z: int, j: int)
    requires 2 <= width && 2 <= depth && 0 <= x < width - 1 && 0 <= z < depth - 1 && 0 <= j < 6
    ensures 6 * (x * (depth - 1) + z) + j < |LowPolyTriangles(width, depth, depth)|
    ensures LowPolyTriangles(width, depth, depth)[6 * (x * (depth - 1) + z) + j] == CellCorners(x, z, depth)[j]
  {
    GridEntriesAt(width, depth, depth, width, x, z, j);
    CellEntryPosition(width, depth, depth, x, z, j);
    CellCornersIff(depth, depth, x, z);
  }
}
