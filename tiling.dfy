/** generate_tiles_core (app.py, lines 9-121): the cell-size retry loop, the
    snapping of the polygons to the chosen grid and the statistics. */
module Tiling {
  import opened Geometry
  import opened Grid
  import opened Snapping
  import opened Coverage

  datatype TileError =
    | InvalidTileShape     // ValueError("Invalid tile shape")
    | NonPositiveCellSize  // a cell width or height <= 0, on which the grid loops would never end
    | ZeroCellWidth        // ZeroDivisionError: `rms_offset / grid_width` with a zero width (line 95)

  datatype Result<T> = Ok(value: T) | Err(error: TileError)

  /** max_attempts */
  const MaxAttempts: nat := 15

  function Pow(x: real, k: nat): real {
    if k == 0 then 1.0 else Pow(x, k - 1) * x
  }

  /** The cell side after k attempts: `grid_width *= scale` once per attempt. */
  function CellSide(side0: real, scale: real, k: nat): real {
    if k == 0 then side0 else CellSide(side0, scale, k - 1) * scale
  }

  lemma CellSideNext(side0: real, scale: real, k: nat, w: real)
    requires w == CellSide(side0, scale, k)
    ensures w * scale == CellSide(side0, scale, k + 1)
  {
  }

  /** After k attempts the side is the initial side times scale^k. */
  lemma {:induction false} CellSideIsPow(side0: real, scale: real, k: nat)
    ensures CellSide(side0, scale, k) == side0 * Pow(scale, k)
  {
    if k > 0 {
      CellSideIsPow(side0, scale, k - 1);
      assert side0 * Pow(scale, k - 1) * scale == side0 * (Pow(scale, k - 1) * scale);
    }
  }

  /** With a positive initial side and a positive scale the side stays positive. */
  lemma {:induction false} CellSidePositive(side0: real, scale: real, k: nat)
    requires side0 > 0.0 && scale > 0.0
    ensures CellSide(side0, scale, k) > 0.0
  {
    if k > 0 {
      CellSidePositive(side0, scale, k - 1);
      assert CellSide(side0, scale, k - 1) * scale > 0.0;
    }
  }

  predicate ValidShape(shape: string) {
    shape == "Rechteck" || shape == "Hexagon"
  }

  /** The cells one attempt generates for cells of width w and height h
      (lines 29-59); a hexagon's height is the cell height. Where the loops
      as written would never end the model reports NonPositiveCellSize; a
      non-positive size on which they end makes no pass and no cell. */
  function CandidateGrid(shape: string, b: Bounds, w: real, h: real): (r: Result<seq<Cell>>)
    ensures r == Err(InvalidTileShape) <==> !ValidShape(shape)
    ensures r == Err(NonPositiveCellSize) <==>
              (shape == "Rechteck" && RectLoopsDiverge(b, w, h)) || (shape == "Hexagon" && HexLoopsDiverge(b, h))
    ensures r.Ok? && shape == "Rechteck" && w > 0.0 && h > 0.0 ==> r.value == RectGrid(b, w, h)
    ensures r.Ok? && shape == "Hexagon" && h > 0.0 ==> r.value == HexGrid(b, h)
    ensures r.Ok? && (h <= 0.0 || (shape == "Rechteck" && w <= 0.0)) ==> r.value == []
  {
    if shape == "Rechteck" then
      if RectLoopsDiverge(b, w, h) then Err(NonPositiveCellSize)
      else if w > 0.0 && h > 0.0 then Ok(RectGrid(b, w, h))
      else Ok([])
    else if shape == "Hexagon" then
      if HexLoopsDiverge(b, h) then Err(NonPositiveCellSize)
      else if h > 0.0 then Ok(HexGrid(b, h))
      else Ok([])
    else
      Err(InvalidTileShape)
  }

  /** One attempt's grid construction, by the loops of the chosen shape. */
  method BuildCandidate(shape: string, b: Bounds, w: real, h: real) returns (r: Result<seq<Cell>>)
    ensures r == CandidateGrid(shape, b, w, h)
  {
    if shape == "Rechteck" {
      if RectLoopsDiverge(b, w, h) {
        return Err(NonPositiveCellSize);
      }
      var cells: seq<Cell> := [];
      if w > 0.0 && h > 0.0 {
        cells := BuildRectGrid(b, w, h);
      }
      r := Ok(cells);
    } else if shape == "Hexagon" {
      if HexLoopsDiverge(b, h) {
        return Err(NonPositiveCellSize);
      }
      var cells: seq<Cell> := [];
      if h > 0.0 {
        cells := BuildHexGrid(b, h);
      }
      r := Ok(cells);
    } else {
      r := Err(InvalidTileShape);
    }
  }

  /** The filtered grid of attempt k, whose cells have side side0 * scale^k. */
  function AttemptGrid(shape: string, b: Bounds, side0: real, scale: real, keep: Cell -> bool, k: nat): Result<seq<Cell>>
  {
    var side := CellSide(side0, scale, k);
    match CandidateGrid(shape, b, side, side)
    case Ok(cells) => Ok(Filter(cells, keep))
    case Err(e) => Err(e)
  }

  /** Attempt k produced a grid with fewer cells than there are polygons. */
  ghost predicate TooFew(shape: string, b: Bounds, side0: real, scale: real, keep: Cell -> bool, target: nat, k: nat) {
    var g := AttemptGrid(shape, b, side0, scale, keep, k);
    g.Ok? && |g.value| < target
  }

  datatype Selection = Selection(grid: seq<Cell>, width: real, height: real, attempts: nat)

  /** What the retry loop promises of the grid it settles on: the last attempt
      made is attempt `attempts`, at most MaxAttempts; the cell size is the
      initial side rescaled once per attempt, the first included; the grid is
      that attempt's filtered grid; every earlier attempt had too few cells, and
      the loop stopped early only because this one had enough. */
  ghost predicate Selected(shape: string, b: Bounds, side0: real, scale: real, keep: Cell -> bool, target: nat, s: Selection) {
    && 1 <= s.attempts <= MaxAttempts
    && s.width == CellSide(side0, scale, s.attempts) && s.height == s.width
    && AttemptGrid(shape, b, side0, scale, keep, s.attempts) == Ok(s.grid)
    && (s.attempts < MaxAttempts ==> |s.grid| >= target)
    && forall k :: 1 <= k < s.attempts ==> TooFew(shape, b, side0, scale, keep, target, k)
  }

  /** The outcome of the retry loop from attempt k on: an attempt whose grid
      cannot be built ends it with that error; one with enough cells, or the
      last one, is selected; otherwise the loop goes on with attempt k + 1. */
  function Retry(shape: string, b: Bounds, side0: real, scale: real, keep: Cell -> bool, target: nat, k: nat): Result<Selection>
    requires 1 <= k <= MaxAttempts
    decreases MaxAttempts - k
  {
    match AttemptGrid(shape, b, side0, scale, keep, k)
    case Err(e) => Err(e)
    case Ok(g) =>
      if |g| >= target || k == MaxAttempts then Ok(Selection(g, CellSide(side0, scale, k), CellSide(side0, scale, k), k))
      else Retry(shape, b, side0, scale, keep, target, k + 1)
  }

  /** The outcome of the whole retry loop, which starts with attempt 1. */
  function SelectOutcome(shape: string, b: Bounds, side0: real, scale: real, keep: Cell -> bool, target: nat): Result<Selection> {
    Retry(shape, b, side0, scale, keep, target, 1)
  }

  /** From attempt k on, when every earlier attempt had too few cells, the
      retry loop either selects a grid as Selected describes or fails with the
      error of the first attempt whose grid cannot be built. */
  lemma {:induction false} RetrySound(shape: string, b: Bounds, side0: real, scale: real, keep: Cell -> bool, target: nat, k: nat)
    requires 1 <= k <= MaxAttempts
    requires forall j :: 1 <= j < k ==> TooFew(shape, b, side0, scale, keep, target, j)
    ensures var r := Retry(shape, b, side0, scale, keep, target, k);
            && (r.Ok? ==> Selected(shape, b, side0, scale, keep, target, r.value))
            && (r.Err? ==>
                  exists k' :: 1 <= k' <= MaxAttempts &&
                    AttemptGrid(shape, b, side0, scale, keep, k') == Err(r.error) &&
                    forall j :: 1 <= j < k' ==> TooFew(shape, b, side0, scale, keep, target, j))
    decreases MaxAttempts - k
  {
    var g := AttemptGrid(shape, b, side0, scale, keep, k);
    if g.Ok? && !(|g.value| >= target || k == MaxAttempts) {
      assert TooFew(shape, b, side0, scale, keep, target, k);
      RetrySound(shape, b, side0, scale, keep, target, k + 1);
    }
  }

  /** From attempt k on, with a valid shape and a positive side and scale,
      every attempt builds its grid, so the retry loop selects one. */
  lemma {:induction false} RetrySucceeds(shape: string, b: Bounds, side0: real, scale: real, keep: Cell -> bool, target: nat, k: nat)
    requires 1 <= k <= MaxAttempts
    requires ValidShape(shape) && side0 > 0.0 && scale > 0.0
    ensures Retry(shape, b, side0, scale, keep, target, k).Ok?
    decreases MaxAttempts - k
  {
    CellSidePositive(side0, scale, k);
    if k < MaxAttempts {
      RetrySucceeds(shape, b, side0, scale, keep, target, k + 1);
    }
  }

  /** What the retry loop promises: an unknown shape is an error; a valid
      shape with a positive side and scale always yields a grid; a selected
      grid is as Selected describes; an error is that of the first attempt
      whose grid cannot be built, all earlier ones having too few cells. */
  lemma SelectOutcomeSound(shape: string, b: Bounds, side0: real, scale: real, keep: Cell -> bool, target: nat)
    ensures var r := SelectOutcome(shape, b, side0, scale, keep, target);
            && (!ValidShape(shape) ==> r == Err(InvalidTileShape))
            && (ValidShape(shape) && side0 > 0.0 && scale > 0.0 ==> r.Ok?)
            && (r.Ok? ==> Selected(shape, b, side0, scale, keep, target, r.value))
            && (r.Err? ==>
                  exists k :: 1 <= k <= MaxAttempts &&
                    AttemptGrid(shape, b, side0, scale, keep, k) == Err(r.error) &&
                    forall j :: 1 <= j < k ==> TooFew(shape, b, side0, scale, keep, target, j))
  {
    RetrySound(shape, b, side0, scale, keep, target, 1);
    if ValidShape(shape) && side0 > 0.0 && scale > 0.0 {
      RetrySucceeds(shape, b, side0, scale, keep, target, 1);
    }
  }

  /** Attempt k: build the grid for cells of width w and height h and keep
      the cells that intersect the region (lines 29-63). */
  method RunAttempt(shape: string, b: Bounds, side0: real, scale: real, keep: Cell -> bool, k: nat, w: real, h: real)
    returns (r: Result<seq<Cell>>)
    requires w == CellSide(side0, scale, k) && h == w
    ensures r == AttemptGrid(shape, b, side0, scale, keep, k)
  {
    var candidate := BuildCandidate(shape, b, w, h);
    if candidate.Err? {
      return Err(candidate.error);
    }
    r := Ok(Filter(candidate.value, keep));
  }

  /** When attempts 1 .. k-1 all had too few cells, the retry loop's outcome
      is that of attempt k on. */
  lemma {:induction false} RetryChain(shape: string, b: Bounds, side0: real, scale: real, keep: Cell -> bool, target: nat, k: nat)
    requires 1 <= k <= MaxAttempts
    requires forall j :: 1 <= j < k ==> TooFew(shape, b, side0, scale, keep, target, j)
    ensures SelectOutcome(shape, b, side0, scale, keep, target) == Retry(shape, b, side0, scale, keep, target, k)
    decreases k
  {
    if k > 1 {
      RetryChain(shape, b, side0, scale, keep, target, k - 1);
      assert TooFew(shape, b, side0, scale, keep, target, k - 1);
    }
  }

  /** The retry loop (lines 20-27 and 61-67). side0 is sqrt(tile_area) and
      target the number of polygons; keep says whether a cell intersects the
      union of the input polygons. */
  method SelectGrid(shape: string, b: Bounds, side0: real, scale: real, target: nat, keep: Cell -> bool)
    returns (res: Result<Selection>)
    ensures res == SelectOutcome(shape, b, side0, scale, keep, target)
    ensures !ValidShape(shape) ==> res == Err(InvalidTileShape)
    ensures ValidShape(shape) && side0 > 0.0 && scale > 0.0 ==> res.Ok?
    ensures res.Ok? ==> Selected(shape, b, side0, scale, keep, target, res.value)
    ensures res.Err? ==>
              exists k :: 1 <= k <= MaxAttempts &&
                AttemptGrid(shape, b, side0, scale, keep, k) == Err(res.error) &&
                forall j :: 1 <= j < k ==> TooFew(shape, b, side0, scale, keep, target, j)
  {
    var w, h := side0, side0;
    var attempt: nat := 0;
    var grid: seq<Cell> := [];
    while attempt < MaxAttempts
      invariant attempt <= MaxAttempts
      invariant w == CellSide(side0, scale, attempt) && h == w
      invariant forall k :: 1 <= k <= attempt ==> TooFew(shape, b, side0, scale, keep, target, k)
      invariant attempt > 0 ==> AttemptGrid(shape, b, side0, scale, keep, attempt) == Ok(grid)
    {
      grid := [];
      CellSideNext(side0, scale, attempt, w);
      w := w * scale;
      h := h * scale;
      attempt := attempt + 1;
      var outcome := RunAttempt(shape, b, side0, scale, keep, attempt, w, h);
      if outcome.Err? {
        res := Err(outcome.error);
        RetryChain(shape, b, side0, scale, keep, target, attempt);
        SelectOutcomeSound(shape, b, side0, scale, keep, target);
        return;
      }
      grid := outcome.value;
      if |grid| >= target {
        break;
      }
    }
    res := Ok(Selection(grid, w, h, attempt));
    RetryChain(shape, b, side0, scale, keep, target, attempt);
    SelectOutcomeSound(shape, b, side0, scale, keep, target);
  }

  /** The statistics the generator reports, without the root-mean-square
      offset and the combined metric (floating-point numerics). */
  datatype Stats = Stats(
    totalPolygons: nat,
    generatedTiles: nat,
    coveragePct: real,
    tileWidth: real,
    tileHeight: real,
    coveredArea: real,
    uncoveredArea: real)

  /** The outcome: the snapped tiles in polygon order, each polygon's centroid
      offset, the statistics, and the selection and labels they came from. */
  datatype TileMap = TileMap(selection: Selection, picks: seq<nat>, tiles: seq<Cell>, offsets: seq<real>, stats: Stats)

  /** What the snapping loop promises (lines 69-78): one tile per polygon
      while cells remain, each the nearest cell not taken by an earlier
      polygon, no cell taken twice. */
  ghost predicate Snapped(centroids: seq<Point>, grid: seq<Cell>, dist: (Point, Point) -> real, picks: seq<nat>, tiles: seq<Cell>) {
    && |picks| == |tiles| == Min(|centroids|, |grid|)
    && (forall i :: 0 <= i < |picks| ==> picks[i] < |grid| && tiles[i] == grid[picks[i]])
    && (forall i :: 0 <= i < |picks| ==> IsNearestFree(grid, picks[..i], centroids[i], dist, picks[i]))
    && (forall i, j :: 0 <= i < j < |picks| ==> picks[i] != picks[j])
  }

  /** generate_tiles_core. The polygons enter as their centroids, in input
      order, and through the geometry the library computes on them: keep
      (does a cell intersect their union), dist (distance between points),
      regionArea (the area of their union) and coveredArea (the area of the
      intersection of their union with the union of some tiles). side0 is
      sqrt(tile_area) for their bounding box b. It fails exactly where the
      retry loop fails, with that error, or where the selected cell width is
      zero, on which `rms_offset / grid_width` raises ZeroDivisionError. */
  method GenerateTiles(centroids: seq<Point>, b: Bounds, shape: string, scale: real, side0: real,
                       keep: Cell -> bool, dist: (Point, Point) -> real,
                       regionArea: real, coveredArea: seq<Cell> -> real)
    returns (res: Result<TileMap>)
    ensures var sel := SelectOutcome(shape, b, side0, scale, keep, |centroids|);
            && (sel.Err? ==> res == Err(sel.error))
            && (sel.Ok? && sel.value.width == 0.0 ==> res == Err(ZeroCellWidth))
            && (sel.Ok? && sel.value.width != 0.0 ==> res.Ok? && res.value.selection == sel.value)
    ensures !ValidShape(shape) ==> res == Err(InvalidTileShape)
    ensures ValidShape(shape) && side0 > 0.0 && scale > 0.0 ==> res.Ok?
    ensures res.Err? && res.error != ZeroCellWidth ==>
              exists k :: 1 <= k <= MaxAttempts &&
                AttemptGrid(shape, b, side0, scale, keep, k) == Err(res.error) &&
                forall j :: 1 <= j < k ==> TooFew(shape, b, side0, scale, keep, |centroids|, j)
    ensures res.Ok? ==>
              var t := res.value;
              && Selected(shape, b, side0, scale, keep, |centroids|, t.selection)
              && t.selection.width != 0.0
              && Snapped(centroids, t.selection.grid, dist, t.picks, t.tiles)
              && t.offsets == CentroidOffsets(centroids, t.tiles, dist)
              && t.stats.totalPolygons == |centroids|
              && t.stats.generatedTiles == |t.tiles| <= t.stats.totalPolygons
              && t.stats.tileWidth == t.selection.width && t.stats.tileHeight == t.selection.height
              && t.stats.coveredArea == coveredArea(t.tiles)
              && t.stats.uncoveredArea == regionArea - coveredArea(t.tiles)
              && t.stats.coveragePct == CoveragePct(coveredArea(t.tiles), regionArea)
  {
    var sel := SelectGrid(shape, b, side0, scale, |centroids|, keep);
    if sel.Err? {
      return Err(sel.error);
    }
    var s := sel.value;
    if side0 > 0.0 && scale > 0.0 {
      CellSidePositive(side0, scale, s.attempts);
    }
    var picks, tiles := SnapToNearest(centroids, s.grid, dist);
    var offsets := CentroidOffsets(centroids, tiles, dist);
    var covered := coveredArea(tiles);
    var total := regionArea;
    var uncovered := UncoveredArea(total, covered);
    var pct := CoveragePct(covered, total);
    if s.width == 0.0 {
      // combined_metric divides by the cell width
      return Err(ZeroCellWidth);
    }
    var stats := Stats(|centroids|, |tiles|, pct, s.width, s.height, covered, uncovered);
    res := Ok(TileMap(s, picks, tiles, offsets, stats));
  }
}
