/** Enumeration of the candidate cells over the bounding box of the input
    polygons, for the two tile shapes, and the intersect filter applied to it
    (app.py, lines 29-63). */
module Grid {
  import opened Geometry

  /* ---------------------------------------------------------------------- */
  /* Rectangular grid ("Rechteck")                                          */
  /* ---------------------------------------------------------------------- */

  /** Number of passes of `while x < maxx` (columns) and of `while y < maxy` (rows). */
  function Columns(b: Bounds, w: real): nat
    requires w > 0.0
  {
    StepCount(b.minx, b.maxx, w)
  }

  function Rows(b: Bounds, h: real): nat
    requires h > 0.0
  {
    StepCount(b.miny, b.maxy, h)
  }

  /** The cells the inner loop appends while x is in column i, bottom to top. */
  function RectColumn(b: Bounds, w: real, h: real, i: nat): seq<Cell>
    requires h > 0.0
  {
    seq(Rows(b, h), j requires 0 <= j => Rect(Step(b.minx, w, i), Step(b.miny, h, j), w, h))
  }

  /** The cells of the first n columns, left to right. */
  function RectColumns(b: Bounds, w: real, h: real, n: nat): seq<Cell>
    requires h > 0.0
  {
    if n == 0 then [] else RectColumns(b, w, h, n - 1) + RectColumn(b, w, h, n - 1)
  }

  /** The whole rectangular grid, in the order the nested loops append it. */
  function RectGrid(b: Bounds, w: real, h: real): seq<Cell>
    requires w > 0.0 && h > 0.0
  {
    RectColumns(b, w, h, Columns(b, w))
  }

  /** A w-by-h box whose lower-left corner lies on the lattice spanned from
      (minx, miny) by steps of w and h, strictly below (maxx, maxy). */
  ghost predicate OnRectLattice(b: Bounds, w: real, h: real, c: Cell) {
    && c.Rect? && c.w == w && c.h == h
    && c.x0 < b.maxx && c.y0 < b.maxy
    && (exists i: nat :: c.x0 == Step(b.minx, w, i))
    && (exists j: nat :: c.y0 == Step(b.miny, h, j))
  }

  method BuildRectGrid(b: Bounds, w: real, h: real) returns (cells: seq<Cell>)
    requires w > 0.0 && h > 0.0
    ensures cells == RectGrid(b, w, h)
  {
    cells := [];
    var x := b.minx;
    ghost var i: nat := 0;
    while x < b.maxx
      invariant x == Step(b.minx, w, i)
      invariant Columns(b, w) == i + StepCount(x, b.maxx, w)
      invariant cells == RectColumns(b, w, h, i)
      decreases StepCount(x, b.maxx, w)
    {
      var y := b.miny;
      ghost var j: nat := 0;
      while y < b.maxy
        invariant y == Step(b.miny, h, j)
        invariant Rows(b, h) == j + StepCount(y, b.maxy, h)
        invariant cells == RectColumns(b, w, h, i) + RectColumn(b, w, h, i)[..j]
        decreases StepCount(y, b.maxy, h)
      {
        assert RectColumn(b, w, h, i)[..j + 1] == RectColumn(b, w, h, i)[..j] + [Rect(x, y, w, h)];
        cells := cells + [Rect(x, y, w, h)];
        StepNext(b.miny, h, j);
        y := y + h;
        j := j + 1;
      }
      assert RectColumn(b, w, h, i)[..j] == RectColumn(b, w, h, i);
      StepNext(b.minx, w, i);
      x := x + w;
      i := i + 1;
    }
  }

  lemma {:induction false} RectColumnsLength(b: Bounds, w: real, h: real, n: nat)
    requires h > 0.0
    ensures |RectColumns(b, w, h, n)| == n * Rows(b, h)
  {
    if n > 0 {
      RectColumnsLength(b, w, h, n - 1);
      assert (n - 1) * Rows(b, h) + Rows(b, h) == n * Rows(b, h);
    }
  }

  lemma {:induction false} RectColumnsAt(b: Bounds, w: real, h: real, n: nat, i: nat, j: nat)
    requires h > 0.0
    requires i < n && j < Rows(b, h)
    ensures i * Rows(b, h) + j < |RectColumns(b, w, h, n)|
    ensures RectColumns(b, w, h, n)[i * Rows(b, h) + j] == Rect(Step(b.minx, w, i), Step(b.miny, h, j), w, h)
  {
    var rows := Rows(b, h);
    RectColumnsLength(b, w, h, n - 1);
    RectColumnsLength(b, w, h, n);
    if i < n - 1 {
      RectColumnsAt(b, w, h, n - 1, i, j);
    } else {
      assert i * rows + j == |RectColumns(b, w, h, n - 1)| + j;
    }
  }

  /** A lattice corner below (maxx, maxy) in column i and row j is the cell at
      position i * Rows + j: the grid is laid out column by column, each column
      from bottom to top, and it holds Columns * Rows cells. */
  lemma RectGridAt(b: Bounds, w: real, h: real, i: nat, j: nat)
    requires w > 0.0 && h > 0.0
    requires Step(b.minx, w, i) < b.maxx && Step(b.miny, h, j) < b.maxy
    ensures |RectGrid(b, w, h)| == Columns(b, w) * Rows(b, h)
    ensures i * Rows(b, h) + j < |RectGrid(b, w, h)|
    ensures RectGrid(b, w, h)[i * Rows(b, h) + j] == Rect(Step(b.minx, w, i), Step(b.miny, h, j), w, h)
  {
    StepCountExact(b.minx, b.maxx, w, i);
    StepCountExact(b.miny, b.maxy, h, j);
    RectColumnsLength(b, w, h, Columns(b, w));
    RectColumnsAt(b, w, h, Columns(b, w), i, j);
  }

  lemma {:induction false} RectColumnsSound(b: Bounds, w: real, h: real, n: nat, c: Cell)
    requires w > 0.0 && h > 0.0
    requires n <= Columns(b, w) && c in RectColumns(b, w, h, n)
    ensures OnRectLattice(b, w, h, c)
  {
    if c in RectColumns(b, w, h, n - 1) {
      RectColumnsSound(b, w, h, n - 1, c);
    } else {
      var j :| 0 <= j < Rows(b, h) && RectColumn(b, w, h, n - 1)[j] == c;
      StepCountExact(b.minx, b.maxx, w, n - 1);
      StepCountExact(b.miny, b.maxy, h, j);
    }
  }

  /** Exactly the lattice boxes below (maxx, maxy) are generated. */
  lemma RectGridCells(b: Bounds, w: real, h: real, c: Cell)
    requires w > 0.0 && h > 0.0
    ensures c in RectGrid(b, w, h) <==> OnRectLattice(b, w, h, c)
  {
    if c in RectGrid(b, w, h) {
      RectColumnsSound(b, w, h, Columns(b, w), c);
    }
    if OnRectLattice(b, w, h, c) {
      var i: nat :| c.x0 == Step(b.minx, w, i);
      var j: nat :| c.y0 == Step(b.miny, h, j);
      RectGridAt(b, w, h, i, j);
    }
  }

  /** The state of a loop after a bounded number of passes. */
  datatype Run = Stopped(passes: nat) | Running

  /** A cursor loop `v = lo; while v < hi: ...; v += d` exactly as written,
      with no guard on the step d, followed for at most fuel passes. Every
      loop of both grids has this shape. */
  function CursorLoopAsWritten(lo: real, hi: real, d: real, fuel: nat): (r: Run)
    ensures r.Stopped? ==> r.passes <= fuel
    decreases fuel
  {
    if !(lo < hi) then Stopped(0)
    else if fuel == 0 then Running
    else
      match CursorLoopAsWritten(lo + d, hi, d, fuel - 1)
      case Stopped(n) => Stopped(n + 1)
      case Running => Running
  }

  /** With a step that is not positive and a first pass that happens, the loop
      as written is still running after any number of passes: it never ends. */
  lemma {:induction false} CursorLoopNeverStops(lo: real, hi: real, d: real, fuel: nat)
    requires d <= 0.0 && lo < hi
    ensures CursorLoopAsWritten(lo, hi, d, fuel) == Running
    decreases fuel
  {
    if fuel > 0 {
      CursorLoopNeverStops(lo + d, hi, d, fuel - 1);
    }
  }

  /** With a positive step the loop as written stops after StepCount passes,
      the number of columns (or rows) the model's grid has. */
  lemma {:induction false} CursorLoopStops(lo: real, hi: real, d: real, fuel: nat)
    requires d > 0.0 && fuel >= StepCount(lo, hi, d)
    ensures CursorLoopAsWritten(lo, hi, d, fuel) == Stopped(StepCount(lo, hi, d))
    decreases fuel
  {
    if lo < hi {
      CursorLoopStops(lo + d, hi, d, fuel - 1);
    }
  }

  /** The rectangle loops never end: the column loop makes a first pass and
      does not advance, or every column's row loop makes a first pass and does
      not advance. */
  predicate RectLoopsDiverge(b: Bounds, w: real, h: real) {
    b.minx < b.maxx && (w <= 0.0 || (h <= 0.0 && b.miny < b.maxy))
  }

  /** When RectLoopsDiverge holds, the column loop or the row loop of the
      first column never stops. */
  lemma RectLoopsStuck(b: Bounds, w: real, h: real, fuel: nat)
    requires RectLoopsDiverge(b, w, h)
    ensures CursorLoopAsWritten(b.minx, b.maxx, w, fuel) == Running
         || CursorLoopAsWritten(b.miny, b.maxy, h, fuel) == Running
  {
    if w <= 0.0 {
      CursorLoopNeverStops(b.minx, b.maxx, w, fuel);
    } else {
      CursorLoopNeverStops(b.miny, b.maxy, h, fuel);
    }
  }

  /** Otherwise the column loop stops after at most cols passes, and the row
      loop after at most rows passes whenever the column loop makes a pass. */
  lemma RectLoopsEnd(b: Bounds, w: real, h: real) returns (cols: nat, rows: nat)
    requires !RectLoopsDiverge(b, w, h)
    ensures CursorLoopAsWritten(b.minx, b.maxx, w, cols).Stopped?
    ensures b.minx < b.maxx ==> CursorLoopAsWritten(b.miny, b.maxy, h, rows).Stopped?
  {
    cols, rows := 0, 0;
    if b.minx < b.maxx {
      cols := StepCount(b.minx, b.maxx, w);
      CursorLoopStops(b.minx, b.maxx, w, cols);
      if h > 0.0 {
        rows := StepCount(b.miny, b.maxy, h);
        CursorLoopStops(b.miny, b.maxy, h, rows);
      }
    }
  }

  /* ---------------------------------------------------------------------- */
  /* Hexagonal grid ("Hexagon")                                             */
  /* ---------------------------------------------------------------------- */

  /** sqrt(3) / 2: the shortest decimal that rounds to the double math.sqrt(3) / 2 evaluates to. */
  const HexWidthRatio: real := 0.8660254037844386

  /** hex_width: the horizontal step between hexagon centres in a row. */
  function HexWidth(hh: real): real {
    HexWidthRatio * hh
  }

  /** The vertical step between rows: three quarters of the hexagon height. */
  function RowStep(hh: real): real {
    hh * 0.75
  }

  /** Where row r starts: odd rows are shifted left by half a hexagon width. */
  function RowStart(b: Bounds, hh: real, r: nat): real {
    b.minx - ((r % 2) as real) * (HexWidth(hh) / 2.0)
  }

  /** Number of passes of `while y < maxy + hex_height`. */
  function HexRowCount(b: Bounds, hh: real): nat
    requires hh > 0.0
  {
    StepCount(b.miny, b.maxy + hh, RowStep(hh))
  }

  /** The hexagons the inner loop appends in row r, left to right. */
  function HexRow(b: Bounds, hh: real, r: nat): seq<Cell>
    requires hh > 0.0
  {
    seq(StepCount(RowStart(b, hh, r), b.maxx + HexWidth(hh), HexWidth(hh)),
        i requires 0 <= i => Hex(Step(RowStart(b, hh, r), HexWidth(hh), i), Step(b.miny, RowStep(hh), r), hh))
  }

  /** The hexagons of the first n rows, bottom to top. */
  function HexRows(b: Bounds, hh: real, n: nat): seq<Cell>
    requires hh > 0.0
  {
    if n == 0 then [] else HexRows(b, hh, n - 1) + HexRow(b, hh, n - 1)
  }

  function HexGrid(b: Bounds, hh: real): seq<Cell>
    requires hh > 0.0
  {
    HexRows(b, hh, HexRowCount(b, hh))
  }

  /** A hexagon of height hh centred in some row r below maxy + hh, at some
      step of that row's start below maxx + hex_width. */
  ghost predicate OnHexLattice(b: Bounds, hh: real, c: Cell) {
    && c.Hex? && c.height == hh
    && c.cy < b.maxy + hh && c.cx < b.maxx + HexWidth(hh)
    && exists r: nat :: c.cy == Step(b.miny, RowStep(hh), r) &&
         exists i: nat :: c.cx == Step(RowStart(b, hh, r), HexWidth(hh), i)
  }

  /** The column loop of row r (lines 44-55): the hexagons of that row,
      left to right, appended to cells. */
  method AppendHexRow(b: Bounds, hh: real, row: nat, y: real, cells: seq<Cell>) returns (out: seq<Cell>)
    requires hh > 0.0 && y == Step(b.miny, RowStep(hh), row)
    ensures out == cells + HexRow(b, hh, row)
  {
    out := cells;
    var hw := HexWidthRatio * hh;
    var x := b.minx - ((row % 2) as real) * (hw / 2.0);
    ghost var i: nat := 0;
    ghost var start := RowStart(b, hh, row);
    ghost var r := HexRow(b, hh, row);
    while x < b.maxx + hw
      invariant x == Step(start, hw, i)
      invariant |r| == i + StepCount(x, b.maxx + hw, hw)
      invariant out == cells + r[..i]
      decreases StepCount(x, b.maxx + hw, hw)
    {
      assert r[..i + 1] == r[..i] + [Hex(x, y, hh)];
      out := out + [Hex(x, y, hh)];
      StepNext(start, hw, i);
      x := x + hw;
      i := i + 1;
    }
    assert r[..i] == r;
  }

  method BuildHexGrid(b: Bounds, hh: real) returns (cells: seq<Cell>)
    requires hh > 0.0
    ensures cells == HexGrid(b, hh)
  {
    cells := [];
    var y := b.miny;
    var row: nat := 0;
    while y < b.maxy + hh
      invariant y == Step(b.miny, RowStep(hh), row)
      invariant HexRowCount(b, hh) == row + StepCount(y, b.maxy + hh, RowStep(hh))
      invariant cells == HexRows(b, hh, row)
      decreases StepCount(y, b.maxy + hh, RowStep(hh))
    {
      cells := AppendHexRow(b, hh, row, y, cells);
      StepNext(b.miny, RowStep(hh), row);
      y := y + hh * 0.75;
      row := row + 1;
    }
  }


  lemma {:induction false} HexRowsSound(b: Bounds, hh: real, n: nat, c: Cell)
    requires hh > 0.0
    requires n <= HexRowCount(b, hh) && c in HexRows(b, hh, n)
    ensures OnHexLattice(b, hh, c)
  {
    if c in HexRows(b, hh, n - 1) {
      HexRowsSound(b, hh, n - 1, c);
    } else {
      var r: nat := n - 1;
      var i :| 0 <= i < |HexRow(b, hh, r)| && HexRow(b, hh, r)[i] == c;
      StepCountExact(b.miny, b.maxy + hh, RowStep(hh), r);
      StepCountExact(RowStart(b, hh, r), b.maxx + HexWidth(hh), HexWidth(hh), i);
      assert c.cx == Step(RowStart(b, hh, r), HexWidth(hh), i);
    }
  }

  lemma {:induction false} HexRowsPrefix(b: Bounds, hh: real, m: nat, n: nat)
    requires hh > 0.0 && m <= n
    ensures HexRows(b, hh, m) <= HexRows(b, hh, n)
    decreases n
  {
    if m < n {
      HexRowsPrefix(b, hh, m, n - 1);
    }
  }

  /** Exactly the hexagons on the staggered lattice are generated. */
  lemma HexGridCells(b: Bounds, hh: real, c: Cell)
    requires hh > 0.0
    ensures c in HexGrid(b, hh) <==> OnHexLattice(b, hh, c)
  {
    if c in HexGrid(b, hh) {
      HexRowsSound(b, hh, HexRowCount(b, hh), c);
    }
    if OnHexLattice(b, hh, c) {
      var r: nat :| c.cy == Step(b.miny, RowStep(hh), r) &&
                    exists i: nat :: c.cx == Step(RowStart(b, hh, r), HexWidth(hh), i);
      var i: nat :| c.cx == Step(RowStart(b, hh, r), HexWidth(hh), i);
      StepCountExact(b.miny, b.maxy + hh, RowStep(hh), r);
      StepCountExact(RowStart(b, hh, r), b.maxx + HexWidth(hh), HexWidth(hh), i);
      assert HexRow(b, hh, r)[i] == c;
      HexRowsPrefix(b, hh, r + 1, HexRowCount(b, hh));
      assert c in HexRows(b, hh, r + 1);
    }
  }

  /** Row r follows rows 0 .. r-1: the grid is laid out row by row, each row
      from left to right. */
  lemma HexGridRowOrder(b: Bounds, hh: real, r: nat)
    requires hh > 0.0 && r < HexRowCount(b, hh)
    ensures HexRows(b, hh, r) + HexRow(b, hh, r) <= HexGrid(b, hh)
  {
    HexRowsPrefix(b, hh, r + 1, HexRowCount(b, hh));
  }

  /** The hexagon loops never end: with a height that is not positive, the
      row loop makes a first pass and y never increases. */
  predicate HexLoopsDiverge(b: Bounds, hh: real) {
    hh <= 0.0 && b.miny < b.maxy + hh
  }

  /** When HexLoopsDiverge holds, the first row's column loop never stops or,
      when it makes no pass, the row loop never stops. */
  lemma HexLoopsStuck(b: Bounds, hh: real, fuel: nat)
    requires HexLoopsDiverge(b, hh)
    ensures CursorLoopAsWritten(b.minx, b.maxx + HexWidth(hh), HexWidth(hh), fuel) == Running
         || CursorLoopAsWritten(b.miny, b.maxy + hh, RowStep(hh), fuel) == Running
  {
    assert HexWidth(hh) <= 0.0 && RowStep(hh) <= 0.0;
    if b.minx < b.maxx + HexWidth(hh) {
      CursorLoopNeverStops(b.minx, b.maxx + HexWidth(hh), HexWidth(hh), fuel);
    } else {
      CursorLoopNeverStops(b.miny, b.maxy + hh, RowStep(hh), fuel);
    }
  }

  /** Otherwise the row loop stops, after at most fuel passes. */
  lemma HexLoopsEnd(b: Bounds, hh: real) returns (fuel: nat)
    requires !HexLoopsDiverge(b, hh)
    ensures CursorLoopAsWritten(b.miny, b.maxy + hh, RowStep(hh), fuel).Stopped?
  {
    fuel := 0;
    if hh > 0.0 {
      fuel := StepCount(b.miny, b.maxy + hh, RowStep(hh));
      CursorLoopStops(b.miny, b.maxy + hh, RowStep(hh), fuel);
    }
  }

  /* ---------------------------------------------------------------------- */
  /* The intersect filter                                                   */
  /* ---------------------------------------------------------------------- */

  /** grid[grid.intersects(region_union)]: the cells for which keep holds, in
      their original order, each as often as it occurs. */
  function Filter(cells: seq<Cell>, keep: Cell -> bool): (r: seq<Cell>)
    ensures |r| <= |cells|
  {
    if cells == [] then []
    else
      var last := cells[|cells| - 1];
      var rest := Filter(cells[..|cells| - 1], keep);
      assert cells == cells[..|cells| - 1] + [last];
      if keep(last) then rest + [last] else rest
  }

  /** A cell is kept exactly as often as it occurs if it passes, and never otherwise. */
  lemma {:induction false} FilterCounts(cells: seq<Cell>, keep: Cell -> bool, c: Cell)
    ensures multiset(Filter(cells, keep))[c] == if keep(c) then multiset(cells)[c] else 0
  {
    if cells != [] {
      var n := |cells| - 1;
      FilterCounts(cells[..n], keep, c);
      assert cells == cells[..n] + [cells[n]];
    }
  }

  /** Every kept cell passes the filter, and every cell that passes is kept. */
  lemma FilterMembers(cells: seq<Cell>, keep: Cell -> bool, c: Cell)
    ensures c in Filter(cells, keep) <==> c in cells && keep(c)
  {
    FilterCounts(cells, keep, c);
    assert c in Filter(cells, keep) <==> multiset(Filter(cells, keep))[c] > 0;
    assert c in cells <==> multiset(cells)[c] > 0;
  }

  /** The kept cells are the cells at the positions idx, which are increasing
      and are exactly the positions of the cells that pass the filter. */
  lemma {:induction false} FilterPositions(cells: seq<Cell>, keep: Cell -> bool) returns (idx: seq<nat>)
    ensures |idx| == |Filter(cells, keep)|
    ensures forall k :: 0 <= k < |idx| ==> idx[k] < |cells| && cells[idx[k]] == Filter(cells, keep)[k]
    ensures forall k, l :: 0 <= k < l < |idx| ==> idx[k] < idx[l]
    ensures forall p :: 0 <= p < |cells| ==> (keep(cells[p]) <==> p in idx)
  {
    if cells == [] {
      idx := [];
    } else {
      var n := |cells| - 1;
      var front := cells[..n];
      var prev := FilterPositions(front, keep);
      var rest := Filter(front, keep);
      assert forall p :: 0 <= p < n ==> cells[p] == front[p];
      if keep(cells[n]) {
        idx := prev + [n];
        assert Filter(cells, keep) == rest + [cells[n]];
      } else {
        idx := prev;
        assert Filter(cells, keep) == rest;
      }
      forall k | 0 <= k < |idx|
        ensures idx[k] < |cells| && cells[idx[k]] == Filter(cells, keep)[k]
      {
        if k < |prev| {
          assert idx[k] == prev[k];
        }
      }
      forall p | 0 <= p < |cells|
        ensures keep(cells[p]) <==> p in idx
      {
        if p < n {
          assert keep(front[p]) <==> p in prev;
          assert p in idx <==> p in prev;
        }
      }
    }
  }
}
