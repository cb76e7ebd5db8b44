# TileMap generator: a Dafny model of `generate_tiles_core`

The TileMap generator turns a set of input polygons into a tile map. It lays a
regular grid of rectangles ("Rechteck") or hexagons ("Hexagon") over the
polygons' bounding box. It keeps the cells that intersect the polygons. The
cell size is rescaled before every attempt, the first included. If an attempt
keeps fewer cells than there are polygons, it tries again, with at most 15
attempts in all. Then each polygon, in input order, is snapped to the nearest grid
cell that no earlier polygon has taken. Finally the generator reports summary
statistics: how many tiles it made, the cell size, and how much of the region
the tiles cover.

This project models that core, `generate_tiles_core` in `app.py`, in five
modules:

- `Geometry` (geometry.dfy): points, bounds, cells and their centroids, and the
  arithmetic of a `while v < hi: v += d` cursor (`Step`, `StepCount`).
- `Grid` (grid.dfy): the rectangular and hexagonal grid loops as methods, the
  grids they build as functions, and the intersect filter.
- `Snapping` (snapping.dfy): the greedy nearest-free-cell loop and the centroid
  offsets.
- `Coverage` (coverage.dfy): the coverage percentage and the uncovered area.
- `Tiling` (tiling.dfy): the retry loop over cell sizes and the whole pipeline.

The geometry library is not modelled; it enters as parameters. `keep` says
whether a cell intersects the union of the polygons. `dist` is the distance
between two points. `regionArea` is the area of the polygons' union, and
`coveredArea` is the area of that union intersected with the union of some
tiles. The polygons enter as their centroids, in input order. The bounding box
`b` and the initial cell side `side0`, which is `sqrt(tile_area)`, are also
inputs. Cell centroids are computed in the model: the centre of a box, and the
centre of a regular hexagon.

Coordinates are exact reals. The source uses IEEE doubles, and a cursor it
advances `i` times by `d` is modelled as exactly `lo + i * d`. The constant
`sqrt(3) / 2` is written as `0.8660254037844386`, the shortest decimal that
rounds to the double the source computes. It is not that double's exact value.

## Model

| member | source | states |
|---|---|---|
| `Geometry.StepCountExact` | app.py:30-36 | A `while v < hi: v += d` loop with `d > 0` runs its i-th pass (from 0) exactly when `lo + i*d < hi`, so it visits exactly the cursor values below the bound. |
| `Geometry.Centroid` | app.py:64 | The centroid of a box of positive size lies strictly inside it; a hexagon's centroid is its centre. |
| `Grid.BuildRectGrid` | app.py:29-36 | The nested `while x < maxx` / `while y < maxy` loops terminate for positive `w`, `h` and append exactly `RectGrid(b, w, h)`, column by column, bottom to top. |
| `Grid.RectGridAt` | app.py:30-36 | The rectangular grid has Columns × Rows cells. The box with corner `(minx + i*w, miny + j*h)` below `(maxx, maxy)` is the cell at position `i*Rows + j`, and it has width `w` and height `h`. |
| `Grid.RectGridCells` | app.py:30-36 | A cell is in the rectangular grid if and only if it is a `w`×`h` box whose corner is `(minx + i*w, miny + j*h)` for some `i`, `j` and lies strictly below `(maxx, maxy)`. |
| `Grid.CursorLoopAsWritten` | app.py:30-36 | Every grid loop has the form `v = lo; while v < hi: ...; v += d`, with no check on the step. This is that loop applied for at most `fuel` passes. Its own `ensures` is only the fuel bound; what the loop does is stated by `CursorLoopNeverStops` and `CursorLoopStops`. |
| `Grid.CursorLoopNeverStops` | app.py:25-36 | When the step is not positive and the first pass happens, the loop as written is still running after any number of passes. |
| `Grid.CursorLoopStops` | app.py:30-36 | When the step is positive, the loop as written stops after exactly `StepCount` passes, the number of columns (or rows) in the model's grid. |
| `Grid.RectLoopsStuck` | app.py:25-36 | When the cell width is not positive and `minx < maxx`, or the height is not positive and both `minx < maxx` and `miny < maxy`, the column loop or the first column's row loop never stops. |
| `Grid.RectLoopsEnd` | app.py:29-36 | In every other case the column loop stops, and the row loop stops whenever the column loop makes a pass. |
| `Grid.BuildHexGrid` | app.py:38-57 | The row loop `while y < maxy + hex_height` and the column loop `while x < maxx + hex_width` terminate for a positive height and append exactly `HexGrid(b, hh)`. |
| `Grid.AppendHexRow` | app.py:44-55 | The column loop of row r, started at `minx - (r % 2) * hex_width / 2`, terminates for a positive height and appends exactly that row's hexagons (`HexRow`), left to right, all at the row's `y`. |
| `Grid.HexGridCells` | app.py:39-57 | A cell is in the hexagonal grid if and only if it is a hexagon of height `hh` centred at row `miny + r*0.75*hh` below `maxy + hh` and at column `RowStart(r) + i*hex_width` below `maxx + hex_width`. Odd rows start half a hexagon width to the left. |
| `Grid.HexGridRowOrder` | app.py:41-57 | Row r comes right after rows 0 to r-1 in the grid. |
| `Grid.HexLoopsStuck` | app.py:38-57 | When the height is not positive and `miny < maxy + hex_height`, the first row's column loop or the row loop never stops. |
| `Grid.HexLoopsEnd` | app.py:41-57 | In every other case the row loop stops. |
| `Grid.Filter` | app.py:63 | The filtered grid is never longer than the grid. |
| `Grid.FilterCounts` | app.py:63 | A cell occurs in the filtered grid as often as in the grid if it intersects the region, and not at all otherwise. |
| `Grid.FilterMembers` | app.py:61-63 | Every kept cell intersects the region, and every grid cell that intersects it is kept. |
| `Grid.FilterPositions` | app.py:63 | The filtered grid is the grid read at increasing positions, and these are exactly the positions of the intersecting cells, so relative order is kept. |
| `Snapping.FirstNearest` | app.py:75-76 | `idxmin`: the chosen position holds a minimum distance, and every earlier position is strictly farther, so the first minimum is chosen. |
| `Snapping.NearestFreeUnique` | app.py:75-76 | At most one free cell is nearest with first-minimum tie-breaking, so the snapping is determined by its inputs. |
| `Snapping.PoolNearest` | app.py:75-77 | The first nearest cell of the free pool is a nearest cell among all labels not yet taken. |
| `Snapping.PoolDrop` | app.py:78 | `available.drop(idx)` leaves exactly the remaining free labels, still in grid order. |
| `Snapping.SnapToNearest` | app.py:69-78 | Exactly `min(#polygons, #cells)` tiles are assigned, so the loop stops only when the pool is empty. Tile i is the cell with label `picks[i]`, and it is nearest to polygon i's centroid among the cells still free at step i. No cell is assigned twice. |
| `Snapping.CentroidOffsets` | app.py:82-85 | There is one offset per snapped tile. |
| `Snapping.OffsetsAreNearest` | app.py:75-85 | With a symmetric distance, offset i pairs polygon i with tile i, and it is no larger than polygon i's distance to any cell still free at its turn. |
| `Coverage.CoveragePct` | app.py:93 | The percentage is 0 when the total area is not positive; otherwise pct × total = covered × 100. |
| `Coverage.CoveragePctBounds` | app.py:90-93 | For a covered area between 0 and the total, the percentage lies in [0, 100]. It is 100 exactly when all is covered and 0 exactly when nothing is. The uncovered area lies between 0 and the total. |
| `Coverage.UncoveredShare` | app.py:92-93 | The uncovered share, in percent, is 100 minus the coverage percentage. |
| `Tiling.CellSideIsPow` | app.py:18-27 | After k attempts the cell side is `sqrt(tile_area) * scale^k`, because the first attempt also rescales. |
| `Tiling.CellSidePositive` | app.py:18-27 | With a positive initial side and a positive scale, the cell side stays positive on every attempt. |
| `Tiling.CandidateGrid` | app.py:29-59 | An unknown tile shape is `InvalidTileShape`, and exactly then. `NonPositiveCellSize` is returned exactly when the loops of the chosen shape, over exact reals, would never end. With a positive size, the grid is the rectangular or hexagonal lattice. With a non-positive size on which the loops end, no cell is made. |
| `Tiling.BuildCandidate` | app.py:29-59 | One attempt's grid construction builds exactly `CandidateGrid`. |
| `Tiling.RunAttempt` | app.py:24-63 | One attempt builds the grid of the chosen shape for that attempt's cell size and keeps the intersecting cells, exactly `AttemptGrid`. |
| `Tiling.RetrySound` | app.py:20-67 | If every attempt before k had too few cells, the retry loop from k on either selects a grid as `Selected` describes, or fails with the error of the first attempt whose grid cannot be built. |
| `Tiling.RetrySucceeds` | app.py:20-67 | With a valid shape and a positive side and scale, the retry loop from any attempt on selects a grid. |
| `Tiling.RetryChain` | app.py:23-67 | If attempts 1 to k-1 all had too few cells, the loop's outcome is the outcome from attempt k on. |
| `Tiling.SelectOutcomeSound` | app.py:20-67 | The retry loop's outcome (`SelectOutcome`) is as follows. An unknown shape gives `InvalidTileShape`, and a valid shape with positive side and scale is never an error. A selected grid satisfies `Selected`: at most 15 attempts, side `CellSide(side0, scale, k)`, the last attempt's filtered grid, every earlier attempt with fewer cells than polygons, and an early stop only when there are enough. An error is the error of the first failing attempt. |
| `Tiling.SelectGrid` | app.py:20-67 | The `while attempt < max_attempts` loop returns exactly `SelectOutcome`, and so it has all the properties of `SelectOutcomeSound`. |
| `Tiling.GenerateTiles` | app.py:9-121 | The pipeline fails exactly when the retry loop fails, with the same error, or when the selected cell width is zero. A zero width raises `ZeroDivisionError` at line 95 and is modelled as `ZeroCellWidth`. Otherwise it returns the retry loop's selection, with tiles snapped as in `SnapToNearest` and offsets from `CentroidOffsets`. `total_polygons` is the polygon count and `generated_tiles` the tile count, never more than `total_polygons`. The tile size is the selected cell size. `uncovered_area = total - covered`, and `coverage_pct` is `CoveragePct(covered, total)`. |

## Left out

- Flask routes `index` and `generate` and `app.run` (app.py:123-146): HTTP, form parsing and template rendering.
- static/New_Leaflet/javascript.js: browser UI (DOM events, fetch, map layers, file download), with no computation.
- `to_crs` and `read_file` (app.py:10, 104-105, 134): projection and file I/O are library calls.
- `total_bounds` and `math.sqrt` (app.py:13-18): the bounding box and `side0 = sqrt(tile_area)` are inputs, because sqrt is a floating-point library call. For an empty input the source computes NaN bounds, which reals cannot represent.
- The geometry library (`intersects`, `union_all`, `centroid` of polygons, `distance`, `intersection`, `area`): these become the parameters `keep`, `dist`, `regionArea`, `coveredArea` and the polygon centroids.
- Hexagon vertices (app.py:46-54): the trigonometry is not modelled; a hexagon is its centre and height.
- `idxmin` skipping NaN distances: distances are reals.
- Float rounding: the model computes on exact reals, so a double loop bound that rounds differently may give another cell count. A positive step below the double spacing at the cursor never advances it. An example is `scale = 1e-14` with `side0` near `1e4`, or a `side0 * scale^k` that underflows to `0.0`. The source then loops forever too, but `NonPositiveCellSize` marks only the divergence over exact reals. A NaN or infinite `scale`, which `float()` at app.py:131 accepts, is not modelled.
- `GenerateTiles`: does not report `rms_offset_m` (app.py:86) or `combined_metric` (app.py:95), because both are floating-point numerics (sqrt, mean). The one failure of line 95, the division by a zero cell width, is modelled as `ZeroCellWidth`. The `round` calls on the statistics (app.py:113-119) are also left out.
- `GenerateTiles`: also returns the selected grid and the picked labels, which the source keeps in local variables, so that its contract can speak about them.
- `CandidateGrid`: returns `NonPositiveCellSize`, and `BuildCandidate` builds it, on the inputs where the source's loops never end over exact reals (see Findings).
- `SelectGrid`: passes on that `NonPositiveCellSize` error, where the source loops forever (see Findings).
- Column dropping before serialisation and `__geo_interface__` (app.py:97-102, 108-109): output plumbing.
- The `label_column` parameter (app.py:9): the function never uses it.

## Findings

| source | as written | input that shows it | evidently intended | confidence | as-written member | corrected member |
|---|---|---|---|---|---|---|
| app.py:25-36 | The cell size is multiplied by `scale` with no check on its sign, so `while x < maxx: ... x += grid_width` never ends when `grid_width <= 0`. The hexagon loops have the same problem when `hex_height <= 0` (`Grid.HexLoopsStuck`). | `tile_shape = "Rechteck"` and `scale = 0` (or any negative `scale`), with polygons whose bounding box has `minx < maxx`. `grid_width` becomes `0.0` (or negative) on the first attempt. The request never returns, or, when `miny < maxy`, runs out of memory because the row loop appends boxes forever. For `"Hexagon"` the same happens when `miny < maxy + hex_height`. | Reject a non-positive cell size with an error, as an unknown tile shape is rejected. `Tiling.SelectGrid` then returns that error, and with positive `scale` and side it always makes a grid over exact reals. | medium; not executed | `Grid.RectLoopsStuck` | `Tiling.CandidateGrid` |
