/**
 * Grid generation: the cell size in degrees, the scan that lays southwest
 * corners over the boundary's bounding box (`generate_grid`, `grillar` and the
 * module-level loop of the first grid script), the rectangle built for each
 * corner (`df_to_geodf`, `df_a_geodf`) and the boundary filter
 * (`filter_inside_contour`, `filtrar_en_contorno`).
 *
 * Coordinates are exact reals: the scan's k-th latitude is `ymin + k * latStep`
 * and `round(..., 6)` is the identity. Whether a rectangle intersects the
 * boundary polygon is a shapely computation and is a parameter here.
 */
module Grid {
  import opened Tables

  /** shapely `box(minx, miny, maxx, maxy)`. */
  datatype Rect = Rect(minX: real, minY: real, maxX: real, maxY: real)

  /** geopandas `total_bounds` of the boundary: `(xmin, ymin, xmax, ymax)`. */
  datatype Bounds = Bounds(xmin: real, ymin: real, xmax: real, ymax: real)

  /** One scanned southwest corner: a row of the `[grid_id, lat, lon]` frame. */
  datatype Origin = Origin(gridId: nat, lat: real, lon: real)

  /** One grid cell: its corner row plus the rectangle geometry. */
  datatype GridCell = GridCell(gridId: nat, lat: real, lon: real, box: Rect)

  /** Kilometres per degree of latitude in the fixed-radius approximation. */
  const KmPerDegree: real := 111.32

  /** Cell side of the first grid script and default of `grillado.main`, in km. */
  const DefaultCellKm: real := 5.0

  /** Default EPSG code of `grillado.main` and of the first grid script. */
  const DefaultEpsg: int := 4326

  /** `lat_step = cell_km / 111.32` (`calculate_cell_size`, `calcular_tamano_celda`). */
  function LatStep(cellKm: real): (step: real)
    ensures step * KmPerDegree == cellKm
    ensures step > 0.0 <==> cellKm > 0.0
  {
    cellKm / KmPerDegree
  }

  /** `LAT_STEP = 5 / 111.32` of the first grid script. */
  const FixedLatStep: real := 5.0 / 111.32

  lemma FixedLatStepIsDefault()
    ensures FixedLatStep == LatStep(DefaultCellKm)
  {
  }

  // ---------------------------------------------------------------------------
  // The scan
  // ---------------------------------------------------------------------------

  /**
   * How many values `lo, lo + step, lo + 2*step, ...` satisfy `<= hi`: the
   * number of passes of one of the scan's `while` loops.
   */
  function Steps(lo: real, hi: real, step: real): (n: nat)
    requires step > 0.0
  {
    if hi < lo then 0 else ((hi - lo) / step).Floor + 1
  }

  /** The k-th value of a loop variable that starts at `lo` and grows by `step` each pass. */
  function Coord(lo: real, step: real, k: nat): real
  {
    if k == 0 then lo else Coord(lo, step, k - 1) + step
  }

  lemma {:induction false} CoordIsProduct(lo: real, step: real, k: nat)
    ensures Coord(lo, step, k) == lo + k as real * step
  {
    if k > 0 {
      CoordIsProduct(lo, step, k - 1);
      assert (k - 1) as real * step + step == k as real * step;
    }
  }

  /** Successive passes are at least one step apart. */
  lemma {:induction false} CoordStepsApart(lo: real, step: real, m: nat, n: nat)
    requires step > 0.0 && m < n
    ensures Coord(lo, step, m) + step <= Coord(lo, step, n)
  {
    if m + 1 < n {
      CoordStepsApart(lo, step, m, n - 1);
    }
  }

  lemma {:induction false} CoordAtLeastStart(lo: real, step: real, k: nat)
    requires step >= 0.0
    ensures lo <= Coord(lo, step, k)
  {
    if k > 0 {
      CoordAtLeastStart(lo, step, k - 1);
    }
  }

  lemma MulMonotone(a: real, b: real, s: real)
    requires s > 0.0
    ensures a <= b <==> a * s <= b * s
  {
  }

  /** The k-th value of a loop variable passes the `<=` test exactly for the first `Steps` values of k. */
  lemma StepBound(lo: real, hi: real, step: real, k: nat)
    requires step > 0.0
    ensures Coord(lo, step, k) <= hi <==> k < Steps(lo, hi, step)
  {
    CoordIsProduct(lo, step, k);
    CoordAtLeastStart(lo, step, k);
    var kr := k as real;
    if hi >= lo {
      var q := (hi - lo) / step;
      assert q * step == hi - lo;
      var f := q.Floor;
      assert f as real <= q < f as real + 1.0;
      MulMonotone(kr, q, step);
      assert kr <= q <==> k <= f;
      assert Steps(lo, hi, step) == f + 1;
      assert lo + kr * step <= hi <==> kr * step <= q * step;
    }
  }

  /** Number of latitude rows the outer loop visits. */
  function RowCount(b: Bounds, latStep: real): nat
    requires latStep > 0.0
  {
    Steps(b.ymin, b.ymax, latStep)
  }

  /** Number of corners each inner loop visits: every row restarts at `xmin`. */
  function ColumnCount(b: Bounds, lonStep: real): nat
    requires lonStep > 0.0
  {
    Steps(b.xmin, b.xmax, lonStep)
  }

  /** The corner in row `r`, column `c` of a scan with `cols` columns; its id is its scan position. */
  function OriginAt(b: Bounds, latStep: real, lonStep: real, cols: nat, r: nat, c: nat): Origin
  {
    Origin(r * cols + c, Coord(b.ymin, latStep, r), Coord(b.xmin, lonStep, c))
  }

  /** One pass of the inner loop: row `r` of the scan. */
  function ScanRow(b: Bounds, latStep: real, lonStep: real, r: nat): (row: seq<Origin>)
    requires latStep > 0.0 && lonStep > 0.0
    ensures |row| == ColumnCount(b, lonStep)
  {
    var cols := ColumnCount(b, lonStep);
    seq(cols, c requires 0 <= c < cols => OriginAt(b, latStep, lonStep, cols, r, c))
  }

  /** The first `k` passes of the outer loop. */
  function ScanRows(b: Bounds, latStep: real, lonStep: real, k: nat): (s: seq<Origin>)
    requires latStep > 0.0 && lonStep > 0.0
    ensures |s| == k * ColumnCount(b, lonStep)
  {
    if k == 0 then [] else ScanRows(b, latStep, lonStep, k - 1) + ScanRow(b, latStep, lonStep, k - 1)
  }

  /** The whole scan, latitude-major, in the order the nested loops produce it. */
  function Scan(b: Bounds, latStep: real, lonStep: real): (s: seq<Origin>)
    requires latStep > 0.0 && lonStep > 0.0
    ensures |s| == RowCount(b, latStep) * ColumnCount(b, lonStep)
  {
    ScanRows(b, latStep, lonStep, RowCount(b, latStep))
  }

  /**
   * `generate_grid` / `grillar` / the first grid script's loop: two nested
   * `while` loops step a corner from `(xmin, ymin)` up to and including
   * `(xmax, ymax)`, appending `[grid_id, lat, lon]` and incrementing `grid_id`.
   * The loops terminate only for positive steps.
   */
  method GenerateGrid(b: Bounds, latStep: real, lonStep: real) returns (rows: seq<Origin>)
    requires latStep > 0.0 && lonStep > 0.0
    ensures rows == Scan(b, latStep, lonStep)
  {
    var nRows := RowCount(b, latStep);
    var nCols := ColumnCount(b, lonStep);
    rows := [];
    var gridId := 0;
    var lat := b.ymin;
    ghost var r: nat := 0;
    while lat <= b.ymax
      invariant r <= nRows
      invariant lat == Coord(b.ymin, latStep, r)
      invariant rows == ScanRows(b, latStep, lonStep, r)
      invariant gridId == r * nCols
      decreases nRows - r
    {
      StepBound(b.ymin, b.ymax, latStep, r);
      ghost var row := ScanRow(b, latStep, lonStep, r);
      var lon := b.xmin;
      ghost var c: nat := 0;
      while lon <= b.xmax
        invariant c <= nCols
        invariant lon == Coord(b.xmin, lonStep, c)
        invariant rows == ScanRows(b, latStep, lonStep, r) + row[..c]
        invariant gridId == r * nCols + c
        decreases nCols - c
      {
        StepBound(b.xmin, b.xmax, lonStep, c);
        assert row[c] == OriginAt(b, latStep, lonStep, nCols, r, c);
        assert row[c] == Origin(gridId, lat, lon);
        assert row[..c + 1] == row[..c] + [row[c]];
        rows := rows + [Origin(gridId, lat, lon)];
        gridId := gridId + 1;
        lon := lon + lonStep;
        c := c + 1;
      }
      StepBound(b.xmin, b.xmax, lonStep, c);
      assert row[..c] == row;
      assert gridId == (r + 1) * nCols;
      lat := lat + latStep;
      r := r + 1;
    }
    StepBound(b.ymin, b.ymax, latStep, r);
  }

  /** Membership in the first `k` rows of the scan. */
  lemma {:induction false} ScanRowsMembers(b: Bounds, latStep: real, lonStep: real, k: nat, o: Origin)
    requires latStep > 0.0 && lonStep > 0.0
    ensures var cols := ColumnCount(b, lonStep);
      o in ScanRows(b, latStep, lonStep, k) <==>
      exists r: nat, c: nat :: r < k && c < cols && o == OriginAt(b, latStep, lonStep, cols, r, c)
  {
    var cols := ColumnCount(b, lonStep);
    if k > 0 {
      ScanRowsMembers(b, latStep, lonStep, k - 1, o);
      var row := ScanRow(b, latStep, lonStep, k - 1);
      if o in row {
        var c :| 0 <= c < cols && row[c] == o;
        assert o == OriginAt(b, latStep, lonStep, cols, k - 1, c);
      }
      if exists r: nat, c: nat :: r < k && c < cols && o == OriginAt(b, latStep, lonStep, cols, r, c) {
        var r: nat, c: nat :| r < k && c < cols && o == OriginAt(b, latStep, lonStep, cols, r, c);
        if r == k - 1 {
          assert row[c] == o;
        }
      }
    }
  }

  /** The scan visits exactly the corners `(ymin + r * latStep, xmin + c * lonStep)` with `r` and `c` below the loop counts. */
  lemma ScanMembers(b: Bounds, latStep: real, lonStep: real, o: Origin)
    requires latStep > 0.0 && lonStep > 0.0
    ensures var cols := ColumnCount(b, lonStep);
      o in Scan(b, latStep, lonStep) <==>
      exists r: nat, c: nat :: r < RowCount(b, latStep) && c < cols && o == OriginAt(b, latStep, lonStep, cols, r, c)
  {
    ScanRowsMembers(b, latStep, lonStep, RowCount(b, latStep), o);
  }

  lemma {:induction false} ScanRowsIds(b: Bounds, latStep: real, lonStep: real, k: nat, i: nat)
    requires latStep > 0.0 && lonStep > 0.0
    requires i < |ScanRows(b, latStep, lonStep, k)|
    ensures ScanRows(b, latStep, lonStep, k)[i].gridId == i
  {
    var prev := ScanRows(b, latStep, lonStep, k - 1);
    if i < |prev| {
      ScanRowsIds(b, latStep, lonStep, k - 1, i);
    }
  }

  /** Scan numbers are `0, 1, ..., n - 1` in scan order. */
  lemma ScanIdsConsecutive(b: Bounds, latStep: real, lonStep: real, i: nat)
    requires latStep > 0.0 && lonStep > 0.0
    requires i < |Scan(b, latStep, lonStep)|
    ensures Scan(b, latStep, lonStep)[i].gridId == i
  {
    ScanRowsIds(b, latStep, lonStep, RowCount(b, latStep), i);
  }

  /** Every corner lies in the closed bounding box (both upper bounds inclusive). */
  lemma ScanWithinBounds(b: Bounds, latStep: real, lonStep: real, o: Origin)
    requires latStep > 0.0 && lonStep > 0.0
    requires o in Scan(b, latStep, lonStep)
    ensures b.ymin <= o.lat <= b.ymax && b.xmin <= o.lon <= b.xmax
  {
    var cols := ColumnCount(b, lonStep);
    ScanMembers(b, latStep, lonStep, o);
    var r: nat, c: nat :| r < RowCount(b, latStep) && c < cols && o == OriginAt(b, latStep, lonStep, cols, r, c);
    StepBound(b.ymin, b.ymax, latStep, r);
    StepBound(b.xmin, b.xmax, lonStep, c);
    CoordAtLeastStart(b.ymin, latStep, r);
    CoordAtLeastStart(b.xmin, lonStep, c);
  }

  /** A 10 x 10 degree box scanned with 1 degree steps yields 11 x 11 corners: both bounds are inclusive. */
  lemma ScanOfTenDegreeBox()
    ensures |Scan(Bounds(0.0, 0.0, 10.0, 10.0), 1.0, 1.0)| == 121
  {
    assert ((10.0 - 0.0) / 1.0).Floor == 10;
  }

  // ---------------------------------------------------------------------------
  // Cells and the tiling they form
  // ---------------------------------------------------------------------------

  /** The rectangle of a corner: `box(lon, lat, lon + lon_step, lat + lat_step)`. */
  function CellBox(o: Origin, latStep: real, lonStep: real): (box: Rect)
    requires latStep > 0.0 && lonStep > 0.0
    ensures Covers(box, o.lon, o.lat) && box.minX < box.maxX && box.minY < box.maxY
  {
    Rect(o.lon, o.lat, o.lon + lonStep, o.lat + latStep)
  }

  /** `df_to_geodf` / `df_a_geodf`: one cell per corner row, in the same order, keeping id and corner. */
  function ToCells(origins: seq<Origin>, latStep: real, lonStep: real): (cells: seq<GridCell>)
    requires latStep > 0.0 && lonStep > 0.0
    ensures |cells| == |origins|
    ensures forall i :: 0 <= i < |cells| ==>
      && cells[i].gridId == origins[i].gridId
      && cells[i].lat == origins[i].lat && cells[i].lon == origins[i].lon
      && Covers(cells[i].box, cells[i].lon, cells[i].lat)
  {
    seq(|origins|, i requires 0 <= i < |origins| =>
      GridCell(origins[i].gridId, origins[i].lat, origins[i].lon, CellBox(origins[i], latStep, lonStep)))
  }

  /** The open interiors of two rectangles meet. */
  predicate InteriorsOverlap(a: Rect, b: Rect)
  {
    a.minX < b.maxX && b.minX < a.maxX && a.minY < b.maxY && b.minY < a.maxY
  }

  /** Closed containment of a point `(x, y)`. */
  predicate Covers(a: Rect, x: real, y: real)
  {
    a.minX <= x <= a.maxX && a.minY <= y <= a.maxY
  }

  /** Two different corners of the scan have rectangles whose interiors are disjoint: no double coverage. */
  lemma ScanCellsDisjoint(b: Bounds, latStep: real, lonStep: real, o1: Origin, o2: Origin)
    requires latStep > 0.0 && lonStep > 0.0
    requires o1 in Scan(b, latStep, lonStep) && o2 in Scan(b, latStep, lonStep) && o1 != o2
    ensures !InteriorsOverlap(CellBox(o1, latStep, lonStep), CellBox(o2, latStep, lonStep))
  {
    var cols := ColumnCount(b, lonStep);
    var rows := RowCount(b, latStep);
    ScanMembers(b, latStep, lonStep, o1);
    ScanMembers(b, latStep, lonStep, o2);
    var r1: nat, c1: nat :| r1 < rows && c1 < cols && o1 == OriginAt(b, latStep, lonStep, cols, r1, c1);
    var r2: nat, c2: nat :| r2 < rows && c2 < cols && o2 == OriginAt(b, latStep, lonStep, cols, r2, c2);
    assert r1 != r2 || c1 != c2;
    DistinctCornersDisjoint(b, latStep, lonStep, o1, o2, r1, c1, r2, c2);
  }

  /** Corners at different (row, column) positions of the lattice have non-overlapping rectangles. */
  lemma DistinctCornersDisjoint(b: Bounds, latStep: real, lonStep: real, o1: Origin, o2: Origin,
                                r1: nat, c1: nat, r2: nat, c2: nat)
    requires latStep > 0.0 && lonStep > 0.0
    requires r1 != r2 || c1 != c2
    requires o1.lat == Coord(b.ymin, latStep, r1) && o1.lon == Coord(b.xmin, lonStep, c1)
    requires o2.lat == Coord(b.ymin, latStep, r2) && o2.lon == Coord(b.xmin, lonStep, c2)
    ensures !InteriorsOverlap(CellBox(o1, latStep, lonStep), CellBox(o2, latStep, lonStep))
  {
    if c1 < c2 {
      CoordStepsApart(b.xmin, lonStep, c1, c2);
    } else if c2 < c1 {
      CoordStepsApart(b.xmin, lonStep, c2, c1);
    } else if r1 < r2 {
      CoordStepsApart(b.ymin, latStep, r1, r2);
    } else {
      CoordStepsApart(b.ymin, latStep, r2, r1);
    }
  }

  /** The loop index whose step contains `v`. */
  lemma StepContaining(lo: real, hi: real, step: real, v: real) returns (k: nat)
    requires step > 0.0 && lo <= v <= hi
    ensures k < Steps(lo, hi, step)
    ensures Coord(lo, step, k) <= v <= Coord(lo, step, k) + step
  {
    var q := (v - lo) / step;
    assert q * step == v - lo;
    k := q.Floor;
    var kr := k as real;
    assert kr <= q < kr + 1.0;
    MulMonotone(kr, q, step);
    MulMonotone(q, kr + 1.0, step);
    assert q * step <= (kr + 1.0) * step;
    assert (kr + 1.0) * step == kr * step + step;
    assert v - lo <= kr * step + step;
    CoordIsProduct(lo, step, k);
    StepBound(lo, hi, step, k);
  }

  /** Every point of the bounding box lies in the rectangle of some scanned corner: the grid has no gaps. */
  lemma ScanCoversBounds(b: Bounds, latStep: real, lonStep: real, x: real, y: real) returns (o: Origin)
    requires latStep > 0.0 && lonStep > 0.0
    requires b.xmin <= x <= b.xmax && b.ymin <= y <= b.ymax
    ensures o in Scan(b, latStep, lonStep)
    ensures Covers(CellBox(o, latStep, lonStep), x, y)
  {
    var cols := ColumnCount(b, lonStep);
    var r := StepContaining(b.ymin, b.ymax, latStep, y);
    var c := StepContaining(b.xmin, b.xmax, lonStep, x);
    o := OriginAt(b, latStep, lonStep, cols, r, c);
    ScanMembers(b, latStep, lonStep, o);
  }

  // ---------------------------------------------------------------------------
  // The boundary filter
  // ---------------------------------------------------------------------------

  /**
   * `filter_inside_contour` / `filtrar_en_contorno`: keep the cells whose
   * rectangle intersects the boundary union. `reset_index(drop=True)` only
   * renumbers the positional index, so every kept cell keeps its `gridId`.
   */
  function FilterInsideContour(cells: seq<GridCell>, intersects: Rect -> bool): (kept: seq<GridCell>)
    ensures forall c :: c in kept <==> c in cells && intersects(c.box)
    ensures IsSubsequence(kept, cells)
  {
    FilterIsSubsequence(cells, (c: GridCell) => intersects(c.box));
    Filter(cells, (c: GridCell) => intersects(c.box))
  }

  ghost predicate IdsIncreasing(cells: seq<GridCell>)
  {
    forall i, j :: 0 <= i < j < |cells| ==> cells[i].gridId < cells[j].gridId
  }

  lemma ScanCellIdsIncreasing(b: Bounds, latStep: real, lonStep: real)
    requires latStep > 0.0 && lonStep > 0.0
    ensures IdsIncreasing(ToCells(Scan(b, latStep, lonStep), latStep, lonStep))
  {
    var cells := ToCells(Scan(b, latStep, lonStep), latStep, lonStep);
    forall i, j | 0 <= i < j < |cells| ensures cells[i].gridId < cells[j].gridId {
      ScanIdsConsecutive(b, latStep, lonStep, i);
      ScanIdsConsecutive(b, latStep, lonStep, j);
    }
  }

  /** Kept grid ids stay strictly increasing: the filter preserves scan order and never renumbers. */
  lemma {:induction false} FilteredIdsIncreasing(cells: seq<GridCell>, intersects: Rect -> bool)
    requires IdsIncreasing(cells)
    ensures IdsIncreasing(FilterInsideContour(cells, intersects))
  {
    if cells != [] {
      var tail := cells[1..];
      assert IdsIncreasing(tail);
      FilteredIdsIncreasing(tail, intersects);
      var kept := FilterInsideContour(cells, intersects);
      var keptTail := FilterInsideContour(tail, intersects);
      assert kept == Filter(cells, (c: GridCell) => intersects(c.box));
      assert keptTail == Filter(tail, (c: GridCell) => intersects(c.box));
      if intersects(cells[0].box) {
        assert kept == [cells[0]] + keptTail;
        forall k | 0 <= k < |keptTail| ensures cells[0].gridId < keptTail[k].gridId {
          assert keptTail[k] in tail;
        }
      } else {
        assert kept == keptTail;
      }
    }
  }

  /** Kept ids can have gaps: of three adjacent cells, dropping the middle one leaves ids 0 and 2. */
  lemma RetainedIdsCanHaveGaps()
    ensures var cells := [GridCell(0, 0.0, 0.0, Rect(0.0, 0.0, 1.0, 1.0)),
                          GridCell(1, 0.0, 1.0, Rect(1.0, 0.0, 2.0, 1.0)),
                          GridCell(2, 0.0, 2.0, Rect(2.0, 0.0, 3.0, 1.0))];
      var kept := FilterInsideContour(cells, (r: Rect) => r.minX != 1.0);
      |kept| == 2 && kept[0].gridId == 0 && kept[1].gridId == 2
  {
    var c0, c1, c2 := GridCell(0, 0.0, 0.0, Rect(0.0, 0.0, 1.0, 1.0)),
                      GridCell(1, 0.0, 1.0, Rect(1.0, 0.0, 2.0, 1.0)),
                      GridCell(2, 0.0, 2.0, Rect(2.0, 0.0, 3.0, 1.0));
    var p := (c: GridCell) => c.box.minX != 1.0;
    assert [c0, c1, c2][1..] == [c1, c2];
    assert [c1, c2][1..] == [c2];
    assert Filter([c2], p) == [c2];
    assert Filter([c1, c2], p) == [c2];
    assert Filter([c0, c1, c2], p) == [c0, c2];
  }

  // ---------------------------------------------------------------------------
  // The whole grid stage
  // ---------------------------------------------------------------------------

  /**
   * `grid_generation.main` / `grillado.main` without the file I/O: scan,
   * build rectangles, keep the cells that intersect the boundary. The first
   * grid script is this with `latStep == FixedLatStep`.
   */
  method BuildGrid(b: Bounds, cellKm: real, lonStep: real, intersects: Rect -> bool) returns (cells: seq<GridCell>)
    requires cellKm > 0.0 && lonStep > 0.0
    ensures cells == FilterInsideContour(ToCells(Scan(b, LatStep(cellKm), lonStep), LatStep(cellKm), lonStep), intersects)
    ensures IdsIncreasing(cells)
    ensures forall c :: c in cells ==> intersects(c.box) && b.ymin <= c.lat <= b.ymax && b.xmin <= c.lon <= b.xmax
  {
    var latStep := LatStep(cellKm);
    var origins := GenerateGrid(b, latStep, lonStep);
    var all := ToCells(origins, latStep, lonStep);
    cells := FilterInsideContour(all, intersects);
    ScanCellIdsIncreasing(b, latStep, lonStep);
    FilteredIdsIncreasing(all, intersects);
    forall c | c in cells ensures intersects(c.box) && b.ymin <= c.lat <= b.ymax && b.xmin <= c.lon <= b.xmax {
      var k :| 0 <= k < |all| && all[k] == c;
      ScanWithinBounds(b, latStep, lonStep, origins[k]);
    }
  }
}
