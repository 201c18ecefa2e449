/** The low-poly floor of the procedural cave: a `width` by `depth` grid of
    noise-displaced vertices and the triangle-index buffer over it, filled by
    two running counters. The layout it produces is the one `LowPoly`
    describes, with the neighbour stride `width` the code uses. */
module ProceduralCave {
  import opened LowPoly

  class ProceduralCaveGenerator {
    const width: int
    const depth: int

    constructor (width: int, depth: int)
      ensures this.width == width && this.depth == depth
    {
      this.width, this.depth := width, depth;
    }

    /** Builds the floor buffers. The vertex of (x, z) is written at
        `vertIndex == x * depth + z`; for each cell a six-entry block is written
        at `triIndex`, which then advances by 6. `noise(x, z)` is the Perlin
        sample at (0.1 x, 0.1 z). Slots the loops never reach keep their
        default value. */
    method GenerateLowPolyMesh(noiseStrength: real, noise: (int, int) -> real)
      returns (vertices: array<Vertex>, triangles: array<int>)
      requires BuffersAllocatable(width, depth)
      ensures vertices.Length == width * depth && triangles.Length == (width - 1) * (depth - 1) * 6
      ensures |LowPolyVertices(width, depth, noise, noiseStrength)| <= vertices.Length
      ensures vertices[..|LowPolyVertices(width, depth, noise, noiseStrength)|] == LowPolyVertices(width, depth, noise, noiseStrength)
      ensures forall i :: |LowPolyVertices(width, depth, noise, noiseStrength)| <= i < vertices.Length ==> vertices[i] == Origin
      ensures |LowPolyTriangles(width, depth, width)| <= triangles.Length
      ensures triangles[..|LowPolyTriangles(width, depth, width)|] == LowPolyTriangles(width, depth, width)
      ensures forall i :: |LowPolyTriangles(width, depth, width)| <= i < triangles.Length ==> triangles[i] == 0
    {
      vertices := new Vertex[width * depth](_ => Origin);
      triangles := new int[(width - 1) * (depth - 1) * 6](_ => 0);

      var vertIndex := 0;
      var triIndex := 0;

      var x := 0;
      while x < width
        invariant 0 <= x && (x <= width || x == 0)
        invariant vertIndex == |GridVertices(depth, x, noise, noiseStrength)| <= vertices.Length
        invariant vertices[..vertIndex] == GridVertices(depth, x, noise, noiseStrength)
        invariant forall i :: vertIndex <= i < vertices.Length ==> vertices[i] == Origin
        invariant triIndex == |GridEntries(width, depth, width, x)| <= triangles.Length
        invariant triangles[..triIndex] == GridEntries(width, depth, width, x)
        invariant forall i :: triIndex <= i < triangles.Length ==> triangles[i] == 0
      {
        vertIndex, triIndex := FillColumn(vertices, triangles, x, vertIndex, triIndex, noiseStrength, noise);
        x := x + 1;
      }
      if 1 <= width && 1 <= depth {
        BuffersFilledExactly(width, depth, width, noise, noiseStrength);
      }
    }

    /** The pass of the inner loop of `GenerateLowPolyMesh` over column x:
        from the counters where the earlier columns left them, writes the
        column's vertices and its cells' entries. */
    method FillColumn(vertices: array<Vertex>, triangles: array<int>, x: nat, vertIndex0: int, triIndex0: int,
                      noiseStrength: real, noise: (int, int) -> real)
      returns (vertIndex: int, triIndex: int)
      requires BuffersAllocatable(width, depth) && x < width
      requires vertices.Length == width * depth && triangles.Length == (width - 1) * (depth - 1) * 6
      requires vertIndex0 == |GridVertices(depth, x, noise, noiseStrength)| <= vertices.Length
      requires vertices[..vertIndex0] == GridVertices(depth, x, noise, noiseStrength)
      requires forall i :: vertIndex0 <= i < vertices.Length ==> vertices[i] == Origin
      requires triIndex0 == |GridEntries(width, depth, width, x)| <= triangles.Length
      requires triangles[..triIndex0] == GridEntries(width, depth, width, x)
      requires forall i :: triIndex0 <= i < triangles.Length ==> triangles[i] == 0
      modifies vertices, triangles
      ensures vertIndex == |GridVertices(depth, x + 1, noise, noiseStrength)| <= vertices.Length
      ensures vertices[..vertIndex] == GridVertices(depth, x + 1, noise, noiseStrength)
      ensures forall i :: vertIndex <= i < vertices.Length ==> vertices[i] == Origin
      ensures triIndex == |GridEntries(width, depth, width, x + 1)| <= triangles.Length
      ensures triangles[..triIndex] == GridEntries(width, depth, width, x + 1)
      ensures forall i :: triIndex <= i < triangles.Length ==> triangles[i] == 0
    {
      vertIndex, triIndex := vertIndex0, triIndex0;
      ColumnStart(width, depth, x, noise, noiseStrength);
      assert ColumnEntries(width, depth, width, x, 0) == [];
      assert triangles[..triIndex] == GridEntries(width, depth, width, x) + ColumnEntries(width, depth, width, x, 0);
      var z := 0;
      while z < depth
        invariant 0 <= z <= depth
        invariant vertIndex == VertexIndex(x, z, depth) <= vertices.Length
        invariant vertices[..vertIndex] == GridVertices(depth, x, noise, noiseStrength) + ColumnVertices(x, z, noise, noiseStrength)
        invariant forall i :: vertIndex <= i < vertices.Length ==> vertices[i] == Origin
        invariant triIndex == |GridEntries(width, depth, width, x)| + |ColumnEntries(width, depth, width, x, z)| <= triangles.Length
        invariant triangles[..triIndex] == GridEntries(width, depth, width, x) + ColumnEntries(width, depth, width, x, z)
        invariant forall i :: triIndex <= i < triangles.Length ==> triangles[i] == 0
      {
        triIndex := FillPoint(vertices, triangles, x, z, vertIndex, triIndex, noiseStrength, noise);
        vertIndex := vertIndex + 1;
        z := z + 1;
      }
    }

    /** One pass of the inner loop of `GenerateLowPolyMesh`: writes the
        vertex of (x, z) at `vertIndex` and, when (x, z) is the first corner
        of a cell, the cell's six entries at `triIndex0`, which then
        advances by 6. */
    method FillPoint(vertices: array<Vertex>, triangles: array<int>, x: nat, z: nat, vertIndex: int, triIndex0: int,
                     noiseStrength: real, noise: (int, int) -> real)
      returns (triIndex: int)
      requires BuffersAllocatable(width, depth) && x < width && z < depth
      requires vertices.Length == width * depth && triangles.Length == (width - 1) * (depth - 1) * 6
      requires vertIndex == VertexIndex(x, z, depth)
      requires vertices[..vertIndex] == GridVertices(depth, x, noise, noiseStrength) + ColumnVertices(x, z, noise, noiseStrength)
      requires forall i :: vertIndex <= i < vertices.Length ==> vertices[i] == Origin
      requires triIndex0 == |GridEntries(width, depth, width, x)| + |ColumnEntries(width, depth, width, x, z)| <= triangles.Length
      requires triangles[..triIndex0] == GridEntries(width, depth, width, x) + ColumnEntries(width, depth, width, x, z)
      requires forall i :: triIndex0 <= i < triangles.Length ==> triangles[i] == 0
      modifies vertices, triangles
      ensures vertIndex + 1 <= vertices.Length
      ensures vertices[..vertIndex + 1] == GridVertices(depth, x, noise, noiseStrength) + ColumnVertices(x, z + 1, noise, noiseStrength)
      ensures forall i :: vertIndex + 1 <= i < vertices.Length ==> vertices[i] == Origin
      ensures triIndex == |GridEntries(width, depth, width, x)| + |ColumnEntries(width, depth, width, x, z + 1)| <= triangles.Length
      ensures triangles[..triIndex] == GridEntries(width, depth, width, x) + ColumnEntries(width, depth, width, x, z + 1)
      ensures forall i :: triIndex <= i < triangles.Length ==> triangles[i] == 0
    {
      triIndex := triIndex0;
      WritesInBounds(width, depth, x, z);
      ghost var written := vertices[..vertIndex];
      ghost var entries := triangles[..triIndex];
      ColumnVerticesStep(x, z, noise, noiseStrength);
      ColumnEntriesStep(width, depth, width, x, z);

      var y := noise(x, z) * noiseStrength;
      vertices[vertIndex] := Vertex(x, y, z);
      assert vertices[..vertIndex + 1] == written + [Vertex(x, y, z)];

      if x < width - 1 && z < depth - 1 {
        WriteCell(triangles, triIndex, vertIndex);
        assert triangles[..triIndex + 6] == entries + CellEntries(width, depth, width, x, z);
        assert |CellEntries(width, depth, width, x, z)| == 6;
        triIndex := triIndex + 6;
      } else {
        assert triangles[..triIndex] == entries + CellEntries(width, depth, width, x, z);
        assert |CellEntries(width, depth, width, x, z)| == 0;
      }
    }

    /** The six entries of the cell whose first vertex is `vertIndex`, written
        at `triIndex`: triangles (v, v + width + 1, v + width) and
        (v, v + 1, v + width + 1). */
    method WriteCell(triangles: array<int>, triIndex: int, vertIndex: int)
      requires 0 <= triIndex && triIndex + 6 <= triangles.Length
      modifies triangles
      ensures triangles[..triIndex + 6] == old(triangles[..triIndex]) + CellIndices(vertIndex, width)
      ensures forall i :: triIndex + 6 <= i < triangles.Length ==> triangles[i] == old(triangles[i])
    {
      triangles[triIndex] := vertIndex;
      triangles[triIndex + 1] := vertIndex + width + 1;
      triangles[triIndex + 2] := vertIndex + width;

      triangles[triIndex + 3] := vertIndex;
      triangles[triIndex + 4] := vertIndex + 1;
      triangles[triIndex + 5] := vertIndex + width + 1;
    }
  }

  /** Column x's vertices grow by one per grid point. */
  lemma ColumnVerticesStep(x: int, z: nat, noise: (int, int) -> real, noiseStrength: real)
    ensures ColumnVertices(x, z + 1, noise, noiseStrength)
         == ColumnVertices(x, z, noise, noiseStrength) + [Vertex(x, noise(x, z) * noiseStrength, z)]
  {
    var a := ColumnVertices(x, z + 1, noise, noiseStrength);
    var b := ColumnVertices(x, z, noise, noiseStrength) + [Vertex(x, noise(x, z) * noiseStrength, z)];
    assert forall i :: 0 <= i < z + 1 ==> a[i] == b[i];
  }

  /** The entries of column x grow by those of grid point (x, z). */
  lemma ColumnEntriesStep(width: int, depth: int, stride: int, x: nat, z: nat)
    ensures GridEntries(width, depth, stride, x) + ColumnEntries(width, depth, stride, x, z + 1)
         == (GridEntries(width, depth, stride, x) + ColumnEntries(width, depth, stride, x, z)) + CellEntries(width, depth, stride, x, z)
  {
  }

  /** Where the loops stand when column x begins: the `x * depth` vertices
      of the earlier columns are written. */
  lemma ColumnStart(width: int, depth: int, x: nat, noise: (int, int) -> real, noiseStrength: real)
    requires BuffersAllocatable(width, depth) && x < width
    ensures 1 <= width && 0 <= depth && (depth == 0 ==> width == 1)
    ensures |GridVertices(depth, x, noise, noiseStrength)| == VertexIndex(x, 0, depth)
  {
    if depth < 0 {
      NegativeProduct(width, depth);
    } else if depth == 0 {
      assert (width - 1) * (depth - 1) * 6 == -6 * (width - 1);
    }
    GridVerticesAt(depth, x, noise, noiseStrength, 0, 0);
  }

  lemma NegativeProduct(a: int, b: int)
    requires 0 < a && b < 0
    ensures a * b < 0
  {
  }

  /** The slots written at grid point (x, z) lie inside the buffers. */
  lemma WritesInBounds(width: int, depth: int, x: nat, z: nat)
    requires BuffersAllocatable(width, depth) && x < width && z < depth
    ensures VertexIndex(x, z, depth) < width * depth
    ensures x < width - 1 && z < depth - 1 ==>
              |GridEntries(width, depth, width, x)| + |ColumnEntries(width, depth, width, x, z)| + 6 <= (width - 1) * (depth - 1) * 6
  {
    MulMonotone(x + 1, width, depth);
    assert (x + 1) * depth == x * depth + depth;
    if x < width - 1 && z < depth - 1 {
      CellSlotInBounds(width, depth, x, z);
    }
  }

  lemma CellSlotInBounds(width: int, depth: int, x: nat, z: nat)
    requires x < width - 1 && z < depth - 1
    ensures |GridEntries(width, depth, width, x)| + |ColumnEntries(width, depth, width, x, z)| + 6 <= (width - 1) * (depth - 1) * 6
  {
    GridEntriesLength(width, depth, width, x);
    ColumnEntriesLength(width, depth, width, x, z);
    SlotArithmetic(width - 1, depth - 1, x, z);
  }

  lemma SlotArithmetic(cols: int, rows: int, x: nat, z: nat)
    requires x < cols && z < rows
    ensures 6 * rows * x + 6 * z + 6 <= cols * rows * 6
  {
    MulMonotone(x + 1, cols, rows);
    assert (x + 1) * rows == x * rows + rows;
  }
}
