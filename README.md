# Cave generation in chainspire, modelled in Dafny

This project models the two grid-generation routines of the chainspire cave
generator.

**The cellular-automaton cave layout (`CaveGenerator`).** The generator:
- fills a `width` by `height` occupancy map with a solid border and random
  interior walls;
- smooths it `smoothIterations` times by the majority rule over each cell's
  3x3 window, where out-of-bounds positions count as walls; every pass reads
  the old map and writes a clone;
- draws a height in `[minWallHeight, maxWallHeight]` for every wall;
- smooths those heights once, in place, so that a cell visited later reads
  neighbours that have already been rewritten.

**The low-poly floor mesh (`ProceduralCaveGenerator.GenerateLowPolyMesh`).**
Two running counters fill a vertex buffer of `width * depth` points and a
triangle-index buffer of `(width - 1) * (depth - 1) * 6` entries.

Files:
- `grids.dfy` (module `Grids`): grids as `seq<seq<int>>` and the bridge
  `Cells` from a two-dimensional array to such a grid.
- `cave_rules.dfy` (module `CaveRules`): the occupancy map as values. It
  covers the initial map, the wall count, one smoothing pass and `n` passes,
  with their invariants.
- `cave_heights.dfy` (module `CaveHeights`): the heights as values. It covers
  the random draw, `Mathf.RoundToInt` on an integer quotient, and the in-place
  pass, written as a fold over the cells in x-major, y-minor order.
- `cave_generator.dfy` (module `Cave`): the class `CaveGenerator` with its two
  `array2<int>` fields. The field `map` is called `caveMap`, since `map` is a
  Dafny keyword. Each method is proved equal to the value-level definition.
- `low_poly.dfy` (module `LowPoly`): the index layout of the floor mesh for any
  neighbour stride, what it guarantees with the stride `width` the code uses,
  and what it guarantees with the stride `depth` the vertex numbering calls for.
- `procedural_cave_generator.dfy` (module `ProceduralCave`): the class
  `ProceduralCaveGenerator` and its array-filling method.

Randomness is injected per cell:
- `randomValue(x, y)` stands for the `Random.value` draw of cell (x, y).
- `rangeDraw(x, y)` stands for the raw draw behind `Random.Range`.
- `noise(x, z)` stands for the Perlin sample of grid point (x, z).

`Mathf.RoundToInt((float)totalHeight / wallCount)` is modelled as
round-half-to-even of the exact rational quotient. This agrees with the
`float` computation whenever every wall height lies within ±2^19; see
"## Left out" for the bound.

## Model

| member | source | states |
|---|---|---|
| Cave.CaveGenerator.constructor | CaveGenerator.cs:7-24 | the configuration is stored and neither grid is allocated yet |
| Cave.CaveGenerator.GenerateMap | CaveGenerator.cs:35-53 | a fresh `width` by `height` map is allocated, and its cells are exactly `InitialMap`: walls on the border, and inside a wall exactly where the draw is below `fillPercent` |
| CaveRules.InitialMap | CaveGenerator.cs:39-52 | the map is 0/1-valued with every border cell a wall, and an interior cell is a wall if and only if its draw is below `fillPercent` |
| Cave.CaveGenerator.GetSurroundingWallCount | CaveGenerator.cs:78-101 | the loop's result is the window count `SurroundingWallCount` of the current map |
| CaveRules.WallCountUnfold | CaveGenerator.cs:82-98 | the count is the sum over the nine window positions of 1 (out of bounds), 0 (the centre) or the map value (other in-bounds positions) |
| CaveRules.WallCountBounds | CaveGenerator.cs:78-101 | on a 0/1 map the count of any in-bounds cell is between 0 and 8 |
| CaveRules.WallCountInterior | CaveGenerator.cs:86-91 | for an interior cell the count is the sum of the eight neighbours' values |
| CaveRules.WallCountUniform | CaveGenerator.cs:82-98 | on a map whose cells all hold `v`, the count is the number of out-of-bounds positions plus `v` times the number of in-bounds neighbours; near the border of an open map it counts only the missing positions |
| CaveRules.WallCountAllWalls | CaveGenerator.cs:65-68 | on an all-wall map every cell counts 8 walls |
| CaveRules.SmoothPass | CaveGenerator.cs:59-74 | every cell of the new map is `NextCell` of the old map: 1 for a count above 4, 0 below 4, unchanged at 4 and on the border |
| Cave.CaveGenerator.SmoothedCopy | CaveGenerator.cs:59-72 | the clone, updated at every interior cell from counts of the unchanged map, equals `SmoothPass` of the map |
| Cave.CaveGenerator.SmoothMap | CaveGenerator.cs:55-76 | the map after the loop is `SmoothN` of the old map for `max(smoothIterations, 0)` passes, so zero passes leave it unchanged |
| CaveRules.SmoothPassKeepsBorderAndValues | CaveGenerator.cs:61-63 | a pass leaves every border cell as it was and keeps a 0/1 map 0/1-valued |
| CaveRules.SmoothNKeepsBorder | CaveGenerator.cs:57-63 | any number of passes leaves every border cell as it was |
| CaveRules.SmoothNKeepsCaveMap | CaveGenerator.cs:57-75 | any number of passes keeps a map 0/1-valued with a solid border |
| CaveRules.SmoothStepKeepsCaveMap | CaveGenerator.cs:59-74 | the pass after a 0/1 map with a solid border yields such a map again |
| CaveRules.SmoothPassUniform | CaveGenerator.cs:65-70 | an all-wall or all-open map is a fixed point of a pass |
| CaveRules.SmoothNUniform | CaveGenerator.cs:57-75 | an all-wall or all-open map is unchanged by any number of passes |
| CaveHeights.RandomRange | CaveGenerator.cs:113 | the integer draw lies in `[lo, hi)` when `lo < hi` and equals `lo` when the bounds are equal |
| CaveHeights.InitialHeights | CaveGenerator.cs:107-120 | an open cell gets 0 and a wall cell gets its draw from `Random.Range(minWallHeight, maxWallHeight + 1)` |
| Cave.CaveGenerator.GenerateWallHeights | CaveGenerator.cs:103-121 | a fresh grid of the map's size, apart from the map, is allocated, and its cells are exactly `InitialHeights` of the map |
| CaveHeights.InitialHeightsShape | CaveGenerator.cs:107-120 | every wall height is in `[minWallHeight, maxWallHeight]`, and with `minWallHeight >= 1` on a 0/1 map a height is 0 exactly where the cell is open |
| CaveHeights.RoundHalfEven | CaveGenerator.cs:148 | the result is within half of `n / d`, and it is even when `n / d` lies exactly halfway between two integers |
| CaveHeights.RoundHalfEvenUnique | CaveGenerator.cs:148 | any integer within half of `n / d` that is even on a tie is the result of `RoundHalfEven`, so the rounding is fully determined |
| CaveHeights.RoundedMeanBetween | CaveGenerator.cs:146-149 | the rounded mean of values in `[lo, hi]` stays in `[lo, hi]` |
| Cave.CaveGenerator.WindowSums | CaveGenerator.cs:131-144 | the two accumulators end as the number of walls in the 3x3 window, centre included, and the sum of their current heights |
| CaveHeights.WindowUnfold | CaveGenerator.cs:134-144 | the count and the total are sums over the nine window positions of the walls and of the heights of walls |
| CaveHeights.WindowWallsOfWall | CaveGenerator.cs:129-146 | the window of a wall cell holds between 1 and 9 walls, so the `wallCount > 0` guard always passes |
| CaveHeights.ColumnTotalBetween | CaveGenerator.cs:136-143 | with every wall height of the cell's 3x3 window in `[lo, hi]`, a window column's height total lies between `lo` and `hi` times its wall count |
| CaveHeights.WindowTotalBetween | CaveGenerator.cs:134-144 | with every wall height of the cell's 3x3 window in `[lo, hi]`, the window's height total lies between `lo` and `hi` times its wall count |
| CaveHeights.WindowMeanBetween | CaveGenerator.cs:131-149 | the height a wall cell receives lies between the smallest and the largest current wall height of its own 3x3 window (any `lo`, `hi` bounding them) |
| Cave.CaveGenerator.SmoothCell | CaveGenerator.cs:129-150 | visiting (x, y) changes the heights exactly as `StepCell` does: a wall cell takes the rounded mean of the current heights in its window, and nothing else changes |
| Cave.CaveGenerator.SmoothColumnCells | CaveGenerator.cs:127-151 | the inner loop over column x gives the heights `SmoothColumn` yields, each visit reading the heights the previous one left |
| Cave.CaveGenerator.SmoothWallHeights | CaveGenerator.cs:123-153 | the map is unchanged, and the heights become `SmoothHeights`, the in-place pass in x-major, y-minor order |
| CaveHeights.StepCellKeeps | CaveGenerator.cs:129-149 | a visit changes only an interior wall cell, and keeps every wall height in `[lo, hi]` |
| CaveHeights.SmoothColumnKeeps | CaveGenerator.cs:127-151 | a column of visits changes only interior wall cells and keeps wall heights in `[lo, hi]` |
| CaveHeights.SmoothColumnsKeeps | CaveGenerator.cs:125-152 | the first `k` columns of visits change only interior wall cells and keep wall heights in `[lo, hi]` |
| CaveHeights.SmoothHeightsKeeps | CaveGenerator.cs:123-153 | the whole pass leaves open cells and border cells unchanged and keeps every wall height in `[lo, hi]` |
| CaveHeights.SmoothHeightsKeepsZeroExactlyWhereOpen | CaveGenerator.cs:123-153 | after the pass a height is still 0 exactly where the map is open, given wall heights of at least 1 |
| CaveHeights.IsolatedWallKeepsHeight | CaveGenerator.cs:131-149 | the visit to a wall cell with no wall neighbour writes back its own height, the mean of one value |
| CaveHeights.StepCellKeepsIsolated | CaveGenerator.cs:129-149 | no visit, to the isolated wall itself or to any other interior cell, changes an isolated wall's height |
| CaveHeights.SmoothColumnKeepsIsolated | CaveGenerator.cs:127-151 | a column of visits leaves an isolated wall's height as it was |
| CaveHeights.SmoothColumnsKeepsIsolated | CaveGenerator.cs:125-152 | the first `k` columns of visits leave an isolated wall's height as it was |
| CaveHeights.SmoothHeightsKeepsIsolatedWall | CaveGenerator.cs:123-153 | after the whole in-place pass an interior wall whose eight neighbours are open has the height it had before |
| CaveHeights.CaveLayoutInvariants | CaveGenerator.cs:26-31 | map generation, smoothing, height drawing and height smoothing, run in that order, yield a 0/1 map with a solid border whose heights are 0 exactly on open cells and within `[minWallHeight, maxWallHeight]` on walls |
| ProceduralCave.ProceduralCaveGenerator.constructor | ProceduralCaveGenerator.cs:6-8 | the grid dimensions `width` and `depth` are stored |
| ProceduralCave.ProceduralCaveGenerator.GenerateLowPolyMesh | ProceduralCaveGenerator.cs:78-118 | the buffers have lengths `width * depth` and `(width - 1) * (depth - 1) * 6`, their written prefixes are `LowPolyVertices` and `LowPolyTriangles` with stride `width`, and the rest holds the default value |
| ProceduralCave.ProceduralCaveGenerator.FillColumn | ProceduralCaveGenerator.cs:91-111 | the inner loop over column x extends the written prefixes by the column's vertices and its cells' entries, and both counters advance to match |
| ProceduralCave.ProceduralCaveGenerator.FillPoint | ProceduralCaveGenerator.cs:93-110 | a grid point writes its vertex at `x * depth + z`, and a cell's first corner also writes the cell's six entries at `triIndex`, which advances by 6 |
| ProceduralCave.ProceduralCaveGenerator.WriteCell | ProceduralCaveGenerator.cs:99-105 | the six entries written at `triIndex` are `v, v+width+1, v+width, v, v+1, v+width+1`, and nothing else changes |
| LowPoly.GridVerticesAt | ProceduralCaveGenerator.cs:89-94 | after `k` columns there are `k * depth` vertices, and the vertex of (x, z) is stored at `x * depth + z` with coordinates x and z |
| LowPoly.ColumnEntriesLength | ProceduralCaveGenerator.cs:91-107 | a column contributes six entries per cell it holds |
| LowPoly.GridEntriesLength | ProceduralCaveGenerator.cs:89-107 | after `k` columns there are `6 * (depth - 1)` entries per column that holds cells |
| LowPoly.GridEntriesAt | ProceduralCaveGenerator.cs:96-107 | entry `j` of cell (x, z) lies at position `|entries of earlier columns| + 6 z + j` and is entry `j` of the cell's block |
| LowPoly.ColumnEntriesAt | ProceduralCaveGenerator.cs:96-107 | within column x, entry `j` of cell (x, z) lies at position `6 z + j` |
| LowPoly.GridEntriesBounded | ProceduralCaveGenerator.cs:89-105 | every entry written lies in `[0, (width - 1) * depth + stride - 1]` |
| LowPoly.ColumnEntriesBounded | ProceduralCaveGenerator.cs:91-105 | only columns with `x < width - 1` write entries, and those entries lie between the column's first vertex and its last vertex plus the stride |
| LowPoly.BuffersFilledExactly | ProceduralCaveGenerator.cs:83-110 | on a non-empty grid the vertex count is `width * depth` and the entry count is `(width - 1) * (depth - 1) * 6`, so both buffers are filled exactly |
| LowPoly.EmptyGridLeavesEntriesUnwritten | ProceduralCaveGenerator.cs:83-84 | with `width == depth == 0` the triangle buffer has length 6 but no entry is written |
| LowPoly.IndicesInRangeIff | ProceduralCaveGenerator.cs:89-105 | with the stride `width` and at least one cell, every index is in `[0, width * depth)` if and only if `width <= depth` |
| LowPoly.CellCornersIff | ProceduralCaveGenerator.cs:94-105 | the six entries of cell (x, z) are the two triangles over its own four corners if and only if `width == depth` |
| LowPoly.ThreeByThreeFloor | ProceduralCaveGenerator.cs:83-105 | a 3 by 3 floor has 9 vertices and 24 entries, every one below 9 |
| LowPoly.WideGridOverrun | ProceduralCaveGenerator.cs:100-105 | on 3 by 2 points entry 7 of the as-written layout is 6, one past the last vertex |
| LowPoly.NarrowGridMisconnects | ProceduralCaveGenerator.cs:99-101 | on 2 by 3 points the first triangle joins (0, 0), (1, 0) and (0, 2), which are not the corners of cell (0, 0) |
| LowPoly.CorrectedIndicesInRange | ProceduralCaveGenerator.cs:83-105 | with the stride `depth`, every index is in `[0, width * depth)` for every grid size |
| LowPoly.CorrectedCellCorners | ProceduralCaveGenerator.cs:94-105 | with the stride `depth`, the six entries of every cell are the two triangles over its own four corners |

## Left out

- Rendering and scene assembly are not modelled. This covers `Start`, `RenderMapWithLOD`, `CreateMeshWithUInt32` and `CreateLODMeshes` (CaveGenerator.cs:26-33, 155-244), which are engine plumbing. The order in which `Start` calls the four steps is stated in `CaveHeights.CaveLayoutInvariants`.
- `Start`, `GenerateNoiseMap`, `GenerateLowPolyFloor` and `GenerateCaveMesh` are not modelled (ProceduralCaveGenerator.cs:23-76). They are Perlin sampling and `GameObject` set-up.
- `MarchingCubesGenerator` is not part of this model; its source is not available.
- The `Mesh` setters and `RecalculateNormals` are not modelled (ProceduralCaveGenerator.cs:114-116). They are library calls; the method returns the two filled buffers instead.
- The Perlin height is not modelled. `Mathf.PerlinNoise` is a foreign float function, so each vertex height is an injected `noise(x, z)` times `noiseStrength`, computed in real arithmetic without `float` rounding.
- `Random.value` and `Random.Range` are not modelled as a random stream. Each is one injected draw per cell, so the order in which the shared stream is consumed and any statistics of the fill are not modelled.
- CaveHeights.RandomRange: for `lo > hi` it returns a value in `[hi, lo]`. Unity's behaviour for reversed bounds is not modelled further; the generator passes reversed bounds only when `maxWallHeight + 1 < minWallHeight`.
- Integer widths are not modelled. Indices and sums are unbounded, so C# 32-bit overflow of `width * depth` or of the triangle count does not occur in the model.
- ProceduralCave.ProceduralCaveGenerator.GenerateLowPolyMesh: requires `BuffersAllocatable`, because C# throws when it allocates an array of negative length (for example `width == 0` with `depth >= 2`). The exception path is not modelled.
- `new Vector3[n]` fills slots with the zero vector; the model writes `Origin` for it.
- Loop bodies are factored into helper methods so that each proof stays small. `SmoothedCopy`, `WindowSums`, `SmoothCell`, `SmoothColumnCells`, `FillColumn`, `FillPoint` and `WriteCell` each hold one loop or one loop body of the method they come from. They read and write the same fields in the same order.
- Cave.CaveGenerator.SmoothWallHeights: when `width < 2` or `height < 2` it returns at once. The source's loops run zero times there, so the effect is the same.
- The rendering quantities (`groundMesh`, the wall meshes, the materials, `noiseScale`, `surfaceLevel`, `offset`, `ceilingHeightOffset`) are not modelled. They do not take part in the modelled routines.
- The fields `height` and `floorNoiseStrength` of `ProceduralCaveGenerator` are not modelled. `height` sizes only the noise map, and `floorNoiseStrength` reaches `GenerateLowPolyMesh` only as its `noiseStrength` argument (ProceduralCaveGenerator.cs:7, 14, 59).
- Cave.CaveGenerator.constructor: takes `width` and `height` as natural numbers. The source's `int` fields accept negative values, and `new int[width, height]` then throws (CaveGenerator.cs:37, 105). That exception path is not modelled.
- CaveHeights.RoundHalfEven: rounds the exact rational quotient, while the source rounds `(float)totalHeight / wallCount`. The two agree whenever every wall height lies within ±2^19 (524288). Then the total of at most nine heights is below 2^23, so it converts to `float` exactly. A quotient that `float` can represent, every multiple of 1/2 among them, is returned exactly. Any other quotient `totalHeight / wallCount` is not a multiple of 1/2, so it lies at least `1 / (2 * wallCount)` >= 1/18 from every multiple of 1/2, which is more than half a `float` step (at most 2^-5 below 2^20). Larger heights can round differently: an isolated wall of height 16777217 becomes 16777216 in the source but keeps 16777217 in the model.
- The guard `wallCount > 0` (CaveGenerator.cs:146) never fails, because the centre wall counts itself (`CaveHeights.WindowWallsOfWall`). An isolated wall keeps its height because it is the mean of one value (`CaveHeights.IsolatedWallKeepsHeight`, `CaveHeights.SmoothHeightsKeepsIsolatedWall`).
- Heights are 0 exactly on open cells only when `minWallHeight >= 1`. With a smaller minimum a wall may draw height 0. `CaveHeights.InitialHeightsShape` and `CaveHeights.CaveLayoutInvariants` state the property under that condition.

## Findings

| source | as written | input that shows it | evidently intended | confidence | as-written member | corrected member |
|---|---|---|---|---|---|---|
| ProceduralCaveGenerator.cs:100-105 | a cell's neighbours are addressed as `v + width`, `v + width + 1`, but vertices are numbered `x * depth + z` | `width = 3, depth = 2`: entry 7 is 6, past the 6-vertex buffer; `width = 2, depth = 3`: the first triangle joins (0, 0), (1, 0), (0, 2) | the stride `depth`, so each cell's two triangles cover its own four corners | not executed | LowPoly.WideGridOverrun | LowPoly.CorrectedIndicesInRange |
