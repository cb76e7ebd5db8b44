/** The coverage bookkeeping of the statistics (app.py, lines 88-93).

    The areas themselves (the union of the input polygons, its intersection
    with the union of the tiles) are computed by the geometry library and
    enter here as numbers: covered is the area of that intersection and total
    the area of the union of the input polygons. */
module Coverage {

  /** covered_pct: the share of the input region covered by tiles, in percent,
      or 0 when the region has no positive area. */
  function CoveragePct(covered: real, total: real): (pct: real)
    ensures total <= 0.0 ==> pct == 0.0
    ensures total > 0.0 ==> pct * total == covered * 100.0
  {
    if total > 0.0 then covered / total * 100.0 else 0.0
  }

  /** uncovered_area: the part of the input region no tile covers. */
  function UncoveredArea(total: real, covered: real): real
  {
    total - covered
  }

  /** Since the covered area is the area of a part of the region, it lies
      between 0 and the region's area; then the percentage lies between 0 and
      100, and reaches 100 exactly when everything is covered and 0 exactly
      when nothing is. */
  lemma CoveragePctBounds(covered: real, total: real)
    requires 0.0 <= covered <= total
    ensures 0.0 <= CoveragePct(covered, total) <= 100.0
    ensures total > 0.0 ==> (CoveragePct(covered, total) == 100.0 <==> covered == total)
    ensures total > 0.0 ==> (CoveragePct(covered, total) == 0.0 <==> covered == 0.0)
    ensures 0.0 <= UncoveredArea(total, covered) <= total
  {
    if total > 0.0 {
      CoveredFraction(covered, total);
    }
  }

  lemma CoveredFraction(covered: real, total: real)
    requires 0.0 <= covered <= total && total > 0.0
    ensures 0.0 <= covered / total <= 1.0
    ensures covered / total == 1.0 <==> covered == total
  {
    assert (covered / total) * total == covered;
  }

  /** The uncovered share and the covered share add up to the whole region. */
  lemma UncoveredShare(covered: real, total: real)
    requires total > 0.0
    ensures UncoveredArea(total, covered) / total * 100.0 == 100.0 - CoveragePct(covered, total)
  {
    assert (total - covered) / total == total / total - covered / total;
    assert total / total == 1.0;
  }
}
