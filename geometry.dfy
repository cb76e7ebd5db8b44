/** Planar values shared by the tile generator: points, the bounding box of the
    input polygons, the two kinds of grid cell, and the arithmetic of a cursor
    that a `while v < hi: v += d` loop advances.

    Coordinates are exact reals. The generator works in Web-Mercator metres on
    IEEE doubles; a cursor advanced i times by d is modelled as exactly
    lo + i * d, which ignores the rounding that repeated addition accumulates. */
module Geometry {

  datatype Point = Point(x: real, y: real)

  /** The total bounds of the input polygons: (minx, miny, maxx, maxy). */
  datatype Bounds = Bounds(minx: real, miny: real, maxx: real, maxy: real)

  /** A grid cell.
      Rect(x0, y0, w, h) is the axis-aligned box with lower-left corner (x0, y0),
      width w and height h, i.e. box(x0, y0, x0 + w, y0 + h).
      Hex(cx, cy, height) is the regular hexagon centred at (cx, cy) whose six
      vertices lie at distance height / 2 from the centre, at the angles
      -30, 30, 90, 150, 210 and 270 degrees. Its vertices are not computed here. */
  datatype Cell =
    | Rect(x0: real, y0: real, w: real, h: real)
    | Hex(cx: real, cy: real, height: real)

  /** The centroid of a cell: the centre of the box, or the centre of the
      hexagon (a regular polygon's centroid is its centre). */
  function Centroid(c: Cell): (p: Point)
    ensures c.Rect? && c.w > 0.0 && c.h > 0.0 ==>
              c.x0 < p.x < c.x0 + c.w && c.y0 < p.y < c.y0 + c.h
    ensures c.Hex? ==> p == Point(c.cx, c.cy)
  {
    match c
    case Rect(x0, y0, w, h) => Point(x0 + w / 2.0, y0 + h / 2.0)
    case Hex(cx, cy, _) => Point(cx, cy)
  }

  /** The value of a cursor that starts at lo and has been advanced by d, i times. */
  function Step(lo: real, d: real, i: nat): real
  {
    lo + (i as real) * d
  }

  lemma StepNext(lo: real, d: real, i: nat)
    ensures Step(lo, d, i) + d == Step(lo, d, i + 1)
    ensures Step(lo + d, d, i) == Step(lo, d, i + 1)
  {
    assert (i + 1) as real * d == (i as real) * d + d;
  }

  lemma FloorDown(x: real)
    ensures (x - 1.0).Floor == x.Floor - 1
  {
    assert (x.Floor - 1) as real <= x - 1.0 < (x.Floor - 1) as real + 1.0;
  }

  /** How many times the body of `v := lo; while v < hi { v := v + d; }` runs. */
  function StepCount(lo: real, hi: real, d: real): nat
    requires d > 0.0
    decreases if lo < hi then ((hi - lo) / d).Floor + 1 else 0
  {
    if lo < hi then
      assert (hi - (lo + d)) / d == (hi - lo) / d - 1.0 by {
        assert (hi - (lo + d)) / d == (hi - lo) / d - d / d;
      }
      FloorDown((hi - lo) / d);
      assert lo + d < hi ==> ((hi - (lo + d)) / d).Floor >= 0 by {
        if lo + d < hi {
          assert (hi - (lo + d)) / d > 0.0;
        }
      }
      1 + StepCount(lo + d, hi, d)
    else
      0
  }

  /** The loop body runs for exactly the cursor values below hi: the i-th run
      (counting from 0) happens if and only if lo + i * d < hi. */
  lemma {:induction false} StepCountExact(lo: real, hi: real, d: real, i: nat)
    requires d > 0.0
    ensures i < StepCount(lo, hi, d) <==> Step(lo, d, i) < hi
    decreases i
  {
    if lo < hi {
      if i > 0 {
        StepCountExact(lo + d, hi, d, i - 1);
        StepNext(lo, d, i - 1);
      }
    } else {
      assert (i as real) * d >= 0.0;
    }
  }
}
