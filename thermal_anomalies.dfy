/**
 * Thermal anomaly clusters for one address: the georeferenced pixels of the
 * thermal image are binned into a 0.25 m grid with `np.maximum.at`, the
 * occupied cells are clustered by DBSCAN, and the cluster numbers
 * (label + 1) form the output raster, -1 marking no data. As written, the
 * projection ignores the anomaly mask, so every pixel with a valid range is
 * binned, NaN temperatures included; the block as intended, binning only the
 * anomalous pixels, is modelled beside it.
 */
module ThermalAnomalies {
  import opened Wrappers
  import Indices
  import opened Projection
  import opened Raster
  import opened ZScores

  /** Grid cell side in metres. */
  const GridResolution: real := 0.25
  /** DBSCAN neighbourhood radius, in grid cells. */
  const DbscanEpsilon: nat := 5
  /** DBSCAN core size; also the fewest points and cells worth clustering. */
  const DbscanMinSamples: nat := 10
  /** The value every grid cell starts from. */
  const EmptyCell: real := -9999.0
  /** Output value of cells in no cluster, declared as the raster's nodata. */
  const Nodata: int := -1

  /** Fewest non-NaN temperatures an image needs. */
  const MinValidPixels: nat := 100

  // ---------------------------------------------------------------- data guard

  /** Where a temperature is NaN, so is its z-score (`nan_policy='omit'`). */
  predicate NanScores(temps: seq<seq<Cell>>, z: seq<seq<ZValue>>) {
    |z| == |temps|
    && forall r :: 0 <= r < |temps| ==>
         |z[r]| == |temps[r]| && forall c :: 0 <= c < |temps[r]| ==> (temps[r][c].NaN? ==> z[r][c].NonFinite?)
  }

  predicate IsReading(temps: seq<seq<Cell>>, r: nat, c: nat) {
    r < |temps| && c < |temps[r]| && temps[r][c].Num?
  }

  /** The non-NaN pixels, in row-major order. */
  function ValidPixels(temps: seq<seq<Cell>>): (cells: seq<(nat, nat)>)
    ensures forall q :: q in cells <==> IsReading(temps, q.0, q.1) && q.1 < Width(temps)
  {
    Indices.GridWhere(|temps|, Width(temps), (r: nat, c: nat) => IsReading(temps, r, c))
  }

  /** `np.nanstd(temp_data) == 0` once there are valid pixels: they all agree. */
  predicate Uniform(temps: seq<seq<Cell>>, cells: seq<(nat, nat)>) {
    forall i, j :: 0 <= i < |cells| && 0 <= j < |cells|
                   && IsReading(temps, cells[i].0, cells[i].1) && IsReading(temps, cells[j].0, cells[j].1) ==>
      temps[cells[i].0][cells[i].1] == temps[cells[j].0][cells[j].1]
  }

  /** Fewer than 100 non-NaN temperatures, or no spread among them. */
  predicate InsufficientData(temps: seq<seq<Cell>>) {
    var cells := ValidPixels(temps);
    |cells| < MinValidPixels || Uniform(temps, cells)
  }

  /** The guard lets an image through only with 100 distinct valid pixels, two of them different. */
  lemma SufficientData(temps: seq<seq<Cell>>)
    requires !InsufficientData(temps)
    ensures var cells := ValidPixels(temps);
            |cells| >= MinValidPixels
            && (forall i, j :: 0 <= i < j < |cells| ==> cells[i] != cells[j])
            && exists i, j :: 0 <= i < |cells| && 0 <= j < |cells|
                              && temps[cells[i].0][cells[i].1].v != temps[cells[j].0][cells[j].1].v
  {
    var cells := ValidPixels(temps);
    forall i, j | 0 <= i < j < |cells| ensures cells[i] != cells[j] {
      assert Indices.RowMajorBefore(cells[i], cells[j]);
    }
    assert forall i :: 0 <= i < |cells| ==> cells[i] in cells;
    var i, j :| 0 <= i < |cells| && 0 <= j < |cells| && temps[cells[i].0][cells[i].1] != temps[cells[j].0][cells[j].1];
    assert IsReading(temps, cells[i].0, cells[i].1) && IsReading(temps, cells[j].0, cells[j].1);
  }

  // ---------------------------------------------------------------- projection

  /**
   * The projection as written: the `filter_mask` argument is never read and
   * every pixel is a candidate.
   */
  function GeoreferenceAsWritten(image: seq<seq<Cell>>, range: seq<seq<int>>, mask: seq<seq<bool>>,
                                 intr: Intrinsics, trig: Trig, origin: (real, real)): (r: Result<seq<GeoPoint<Cell>>, string>)
    requires SameShape(image, range, mask)
    ensures r.Ok? ==> |r.value| == |PixelSet(range, AllTrue(|image|, Width(image)), |image|, Width(image))|
  {
    Georeference(image, range, AllTrue(|image|, Width(image)), intr, trig, origin)
  }

  /** As written, the points do not depend on the mask at all. */
  lemma AsWrittenIgnoresMask(image: seq<seq<Cell>>, range: seq<seq<int>>, m1: seq<seq<bool>>, m2: seq<seq<bool>>,
                             intr: Intrinsics, trig: Trig, origin: (real, real))
    requires SameShape(image, range, m1) && SameShape(image, range, m2)
    ensures GeoreferenceAsWritten(image, range, m1, intr, trig, origin)
            == GeoreferenceAsWritten(image, range, m2, intr, trig, origin)
  {
  }

  /**
   * The projection the caller relies on: only pixels whose z-score is
   * anomalous (and whose range is valid) become points, and so every point
   * carries a temperature reading rather than NaN.
   */
  function AnomalousPoints(temps: seq<seq<Cell>>, range: seq<seq<int>>, z: seq<seq<ZValue>>,
                           intr: Intrinsics, trig: Trig, origin: (real, real)): (r: Result<seq<GeoPoint<Cell>>, string>)
    requires SameShape(temps, range, AnomalyMask(z)) && NanScores(temps, z)
    ensures r.Ok? ==> |r.value| == |PixelSet(range, AnomalyMask(z), |temps|, Width(temps))|
    ensures r.Ok? ==> forall q :: q in Selected(range, AnomalyMask(z), |temps|, Width(temps)) ==>
                        Anomalous(z[q.0][q.1]) && ValidRange(range[q.0][q.1])
    ensures r.Ok? ==> forall i :: 0 <= i < |r.value| ==> r.value[i].value.Num?
  {
    var res := Georeference(temps, range, AnomalyMask(z), intr, trig, origin);
    if res.Ok? then
      var cells := Selected(range, AnomalyMask(z), |temps|, Width(temps));
      assert forall i :: 0 <= i < |cells| ==> cells[i] in PixelSet(range, AnomalyMask(z), |temps|, Width(temps));
      res
    else res
  }

  /**
   * A one-pixel image with a valid range and an unremarkable z-score: the
   * code as written still yields a point for it, where none is intended.
   */
  lemma MaskIgnoredExample(trig: Trig)
    ensures var temps, range, z := [[Num(20.0)]], [[5000]], [[Finite(0.0)]];
            var intr := Intrinsics([0.0], [0.0]);
            GeoreferenceAsWritten(temps, range, AnomalyMask(z), intr, trig, (0.0, 0.0)).Ok?
            && |GeoreferenceAsWritten(temps, range, AnomalyMask(z), intr, trig, (0.0, 0.0)).value| == 1
            && AnomalousPoints(temps, range, z, intr, trig, (0.0, 0.0)) == Ok([])
  {
    var temps, range, z := [[Num(20.0)]], [[5000]], [[Finite(0.0)]];
    var all := AllTrue(1, 1);
    assert (0, 0) in PixelSet(range, all, 1, 1);
    assert PixelSet(range, all, 1, 1) == {(0, 0)};
    var mask := AnomalyMask(z);
    assert !mask[0][0];
    assert PixelSet(range, mask, 1, 1) == {};
  }

  // ---------------------------------------------------------------- gridding

  /** `int(np.ceil((hi - lo) / 0.25))`. */
  function Dim(lo: real, hi: real): int {
    Ceil((hi - lo) / GridResolution)
  }

  /** `((v - lo) / 0.25).astype(int)`. */
  function CellIndex(v: real, lo: real): int {
    Trunc((v - lo) / GridResolution)
  }

  /** A whole number of grid cells. */
  predicate Whole(x: real) {
    Floor(x) as real == x
  }

  /**
   * Between the column minimum and maximum, the cell index is never negative
   * and at most the grid size; it reaches the grid size, one past the last
   * cell, exactly at the maximum when the span is a whole number of cells.
   */
  lemma CellIndexBounds(v: real, lo: real, hi: real)
    requires lo <= v <= hi
    ensures 0 <= CellIndex(v, lo) <= Dim(lo, hi)
    ensures CellIndex(v, lo) == Dim(lo, hi) <==> v == hi && Whole((hi - lo) / GridResolution)
  {
  }

  function Xs(pts: seq<GeoPoint<Cell>>): (r: seq<real>)
    ensures |r| == |pts| && forall i :: 0 <= i < |pts| ==> r[i] == pts[i].x
  {
    seq(|pts|, i requires 0 <= i < |pts| => pts[i].x)
  }

  function Ys(pts: seq<GeoPoint<Cell>>): (r: seq<real>)
    ensures |r| == |pts| && forall i :: 0 <= i < |pts| ==> r[i] == pts[i].y
  {
    seq(|pts|, i requires 0 <= i < |pts| => pts[i].y)
  }

  /** Every point lies inside the frame. */
  predicate Encloses(f: Frame, pts: seq<GeoPoint<Cell>>) {
    forall i :: 0 <= i < |pts| ==> f.minX <= pts[i].x <= f.maxX && f.minY <= pts[i].y <= f.maxY
  }

  /** Some point sits on the frame's maximum x, and some on its maximum y. */
  predicate ReachesMaxima(f: Frame, pts: seq<GeoPoint<Cell>>) {
    (exists i :: 0 <= i < |pts| && pts[i].x == f.maxX) && (exists i :: 0 <= i < |pts| && pts[i].y == f.maxY)
  }

  /** The grid frame of a non-empty point list: its bounding box. */
  datatype Frame = Frame(minX: real, minY: real, maxX: real, maxY: real)

  function FrameOf(pts: seq<GeoPoint<Cell>>): (f: Frame)
    requires |pts| > 0
    ensures Encloses(f, pts) && ReachesMaxima(f, pts)
    ensures (exists i :: 0 <= i < |pts| && pts[i].x == f.minX) && (exists i :: 0 <= i < |pts| && pts[i].y == f.minY)
  {
    Frame(SeqMin(Xs(pts)), SeqMin(Ys(pts)), SeqMax(Xs(pts)), SeqMax(Ys(pts)))
  }

  /**
   * The `(point_ys, point_xs)` targets of `np.maximum.at` with their
   * temperatures; the row index grows with y.
   */
  function GridHits(pts: seq<GeoPoint<Cell>>, f: Frame): (hits: seq<Delivery>)
    ensures |hits| == |pts|
    ensures forall i :: 0 <= i < |pts| ==>
              hits[i] == Delivery(CellIndex(pts[i].y, f.minY), CellIndex(pts[i].x, f.minX), pts[i].value)
  {
    seq(|pts|, i requires 0 <= i < |pts| =>
      Delivery(CellIndex(pts[i].y, f.minY), CellIndex(pts[i].x, f.minX), pts[i].value))
  }

  predicate InGrid(h: Delivery, rows: int, cols: int) {
    0 <= h.row < rows && 0 <= h.col < cols
  }

  predicate AllInGrid(hits: seq<Delivery>, rows: int, cols: int) {
    forall i :: 0 <= i < |hits| ==> InGrid(hits[i], rows, cols)
  }

  /**
   * One point lands inside the grid unless it sits on the maximum x (or y)
   * of a span that is a whole number of cells.
   */
  lemma PointInGrid(p: GeoPoint<Cell>, f: Frame)
    requires f.minX <= p.x <= f.maxX && f.minY <= p.y <= f.maxY
    ensures InGrid(Delivery(CellIndex(p.y, f.minY), CellIndex(p.x, f.minX), p.value), Dim(f.minY, f.maxY), Dim(f.minX, f.maxX))
            <==> !(p.x == f.maxX && Whole((f.maxX - f.minX) / GridResolution))
                 && !(p.y == f.maxY && Whole((f.maxY - f.minY) / GridResolution))
  {
    CellIndexBounds(p.x, f.minX, f.maxX);
    CellIndexBounds(p.y, f.minY, f.maxY);
  }

  /** A span that is a whole number of cells pushes its maximum point past the grid. */
  lemma OverflowAtMaximum(pts: seq<GeoPoint<Cell>>, f: Frame, i: nat)
    requires Encloses(f, pts) && i < |pts|
    requires (pts[i].x == f.maxX && Whole((f.maxX - f.minX) / GridResolution))
             || (pts[i].y == f.maxY && Whole((f.maxY - f.minY) / GridResolution))
    ensures !AllInGrid(GridHits(pts, f), Dim(f.minY, f.maxY), Dim(f.minX, f.maxX))
  {
    PointInGrid(pts[i], f);
    assert GridHits(pts, f)[i] == Delivery(CellIndex(pts[i].y, f.minY), CellIndex(pts[i].x, f.minX), pts[i].value);
  }

  /** Spans that are not whole numbers of cells keep every point inside the grid. */
  lemma NoOverflow(pts: seq<GeoPoint<Cell>>, f: Frame)
    requires Encloses(f, pts)
    requires !Whole((f.maxX - f.minX) / GridResolution) && !Whole((f.maxY - f.minY) / GridResolution)
    ensures AllInGrid(GridHits(pts, f), Dim(f.minY, f.maxY), Dim(f.minX, f.maxX))
  {
    var hits := GridHits(pts, f);
    forall i | 0 <= i < |pts| ensures InGrid(hits[i], Dim(f.minY, f.maxY), Dim(f.minX, f.maxX)) {
      PointInGrid(pts[i], f);
    }
  }

  /** Some point of the frame's grid indexes past it. */
  predicate Overflows(pts: seq<GeoPoint<Cell>>, f: Frame) {
    !AllInGrid(GridHits(pts, f), Dim(f.minY, f.maxY), Dim(f.minX, f.maxX))
  }

  /** The x span or the y span is a whole number of cells. */
  predicate WholeSpan(f: Frame) {
    Whole((f.maxX - f.minX) / GridResolution) || Whole((f.maxY - f.minY) / GridResolution)
  }

  /** A frame that encloses the points and is reached by them overflows iff a span is whole. */
  lemma FrameOverflow(pts: seq<GeoPoint<Cell>>, f: Frame)
    requires Encloses(f, pts) && ReachesMaxima(f, pts)
    ensures Overflows(pts, f) <==> WholeSpan(f)
  {
    if Whole((f.maxX - f.minX) / GridResolution) {
      var i :| 0 <= i < |pts| && pts[i].x == f.maxX;
      OverflowAtMaximum(pts, f, i);
    } else if Whole((f.maxY - f.minY) / GridResolution) {
      var i :| 0 <= i < |pts| && pts[i].y == f.maxY;
      OverflowAtMaximum(pts, f, i);
    } else {
      NoOverflow(pts, f);
    }
  }

  /**
   * Some point indexes past the grid, so that `np.maximum.at` raises
   * IndexError, exactly when the x span or the y span is a whole number of
   * cells.
   */
  lemma GridOverflow(pts: seq<GeoPoint<Cell>>)
    requires |pts| > 0
    ensures Overflows(pts, FrameOf(pts)) <==> WholeSpan(FrameOf(pts))
  {
    FrameOverflow(pts, FrameOf(pts));
  }

  /**
   * `grid > -9999.0` for one cell: its value rose above the initial -9999.
   * A cell that a NaN reached holds NaN, which compares false.
   */
  predicate OccupiedIn(hits: seq<Delivery>, r: nat, c: nat) {
    var m := MaximumAt(hits, r, c, EmptyCell);
    m.Num? && m.v > EmptyCell
  }

  /** `np.where(grid > -9999.0)`: the occupied cells in row-major order. */
  function OccupiedCells(hits: seq<Delivery>, rows: nat, cols: nat): (cells: seq<(nat, nat)>)
    ensures forall q :: q in cells <==> q.0 < rows && q.1 < cols && OccupiedIn(hits, q.0, q.1)
    ensures forall i, j :: 0 <= i < j < |cells| ==> Indices.RowMajorBefore(cells[i], cells[j])
  {
    Indices.GridWhere(rows, cols, (r: nat, c: nat) => OccupiedIn(hits, r, c))
  }

  /** Each occupied cell appears once, inside the grid. */
  lemma OccupiedCellsDistinct(hits: seq<Delivery>, rows: nat, cols: nat)
    ensures var cells := OccupiedCells(hits, rows, cols);
            (forall i, j :: 0 <= i < j < |cells| ==> cells[i] != cells[j])
            && forall i :: 0 <= i < |cells| ==> cells[i].0 < rows && cells[i].1 < cols
  {
    var cells := OccupiedCells(hits, rows, cols);
    forall i, j | 0 <= i < j < |cells| ensures cells[i] != cells[j] {
      assert Indices.RowMajorBefore(cells[i], cells[j]);
    }
    forall i | 0 <= i < |cells| ensures cells[i].0 < rows && cells[i].1 < cols {
      assert cells[i] in cells;
    }
  }

  /**
   * A cell is occupied exactly when no NaN temperature falls in it and some
   * temperature above -9999 does.
   */
  lemma OccupiedIff(hits: seq<Delivery>, r: nat, c: nat)
    ensures OccupiedIn(hits, r, c)
            <==> (forall i :: 0 <= i < |hits| && Delivers(hits[i], r, c) ==> hits[i].value.Num?)
                 && exists i :: 0 <= i < |hits| && Delivers(hits[i], r, c) && hits[i].value.Num? && hits[i].value.v > EmptyCell
  {
    var m := MaximumAt(hits, r, c, EmptyCell);
    if m.Num? && m.v > EmptyCell {
      var i :| 0 <= i < |hits| && Delivers(hits[i], r, c) && hits[i].value == m;
    }
  }

  /** `np.column_stack((grid_xs, grid_ys))`: (column, row) pairs. */
  function ClusterInput(cells: seq<(nat, nat)>): (pts: seq<(int, int)>)
    ensures |pts| == |cells| && forall i :: 0 <= i < |cells| ==> pts[i] == (cells[i].1 as int, cells[i].0 as int)
  {
    seq(|cells|, i requires 0 <= i < |cells| => (cells[i].1 as int, cells[i].0 as int))
  }

  /** The clustering input lists every occupied cell, each exactly once. */
  lemma ClusterInputDistinct(hits: seq<Delivery>, rows: nat, cols: nat)
    ensures var pts := ClusterInput(OccupiedCells(hits, rows, cols));
            Indices.Distinct(pts)
            && forall r: nat, c: nat :: r < rows && c < cols && OccupiedIn(hits, r, c) ==> (c as int, r as int) in pts
  {
    var cells := OccupiedCells(hits, rows, cols);
    var pts := ClusterInput(cells);
    forall i, j | 0 <= i < j < |pts| ensures pts[i] != pts[j] {
      assert Indices.RowMajorBefore(cells[i], cells[j]);
    }
    forall r: nat, c: nat | r < rows && c < cols && OccupiedIn(hits, r, c) ensures (c as int, r as int) in pts {
      assert (r, c) in cells;
      var i :| 0 <= i < |cells| && cells[i] == (r, c);
      assert pts[i] == (c as int, r as int);
    }
  }

  /** DBSCAN as an oracle: one label per input point, -1 for noise. */
  ghost predicate ClusterOracle(dbscan: seq<(int, int)> -> seq<int>) {
    forall pts :: |dbscan(pts)| == |pts| && forall i :: 0 <= i < |pts| ==> dbscan(pts)[i] >= -1
  }

  predicate AllNoise(labels: seq<int>) {
    forall i :: 0 <= i < |labels| ==> labels[i] == -1
  }

  // ---------------------------------------------------------------- outcomes

  datatype ThermalSkip =
    | InsufficientValidData
    | TooFewAnomalousPoints(points: nat)
    | InvalidGridDimensions(rows: int, cols: int)
    | TooFewGridCells(cells: nat)
    | NoClusters

  /** The text of the exception `np.maximum.at` raises for an index past the grid. */
  const GridIndexError: string := "index is out of bounds for the grid"

  datatype ThermalPlan =
    | PlanSkip(reason: ThermalSkip)
    | PlanFail(message: string)
    | PlanRaster(rows: nat, cols: nat, cells: seq<(nat, nat)>, labels: seq<int>, lowerLeft: (real, real))

  /** What happens once every point has landed in a valid grid. */
  function GridPlan(hits: seq<Delivery>, rows: nat, cols: nat, lowerLeft: (real, real),
                    dbscan: seq<(int, int)> -> seq<int>): (p: ThermalPlan)
    requires ClusterOracle(dbscan)
    ensures p.PlanRaster? ==> |p.labels| == |p.cells| && p.rows == rows && p.cols == cols && p.lowerLeft == lowerLeft
    ensures p.PlanSkip? ==> p.reason.TooFewGridCells? || p.reason.NoClusters?
  {
    var cells := OccupiedCells(hits, rows, cols);
    if |cells| < DbscanMinSamples then PlanSkip(TooFewGridCells(|cells|))
    else
      var labels := dbscan(ClusterInput(cells));
      if AllNoise(labels) then PlanSkip(NoClusters)
      else PlanRaster(rows, cols, cells, labels, lowerLeft)
  }

  /** What the per-address block decides for a list of anomalous points. */
  function Plan(pts: seq<GeoPoint<Cell>>, dbscan: seq<(int, int)> -> seq<int>): (p: ThermalPlan)
    requires ClusterOracle(dbscan)
    ensures p.PlanRaster? ==> |p.labels| == |p.cells| && p.rows > 0 && p.cols > 0
    ensures p == PlanSkip(TooFewAnomalousPoints(|pts|)) <==> |pts| < DbscanMinSamples
  {
    if |pts| < DbscanMinSamples then PlanSkip(TooFewAnomalousPoints(|pts|))
    else
      var f := FrameOf(pts);
      var cols, rows := Dim(f.minX, f.maxX), Dim(f.minY, f.maxY);
      if cols <= 0 || rows <= 0 then PlanSkip(InvalidGridDimensions(rows, cols))
      else
        var hits := GridHits(pts, f);
        if !AllInGrid(hits, rows, cols) then PlanFail(GridIndexError)
        else GridPlan(hits, rows, cols, (f.minX, f.minY), dbscan)
  }

  /**
   * The bounding box's spans are never negative, so the only invalid grid
   * is one with a zero dimension: all points share an x, or all share a y.
   */
  lemma InvalidGridMeansFlat(pts: seq<GeoPoint<Cell>>)
    requires |pts| > 0
    ensures var f := FrameOf(pts);
            Dim(f.minX, f.maxX) >= 0 && Dim(f.minY, f.maxY) >= 0
            && (Dim(f.minX, f.maxX) == 0 <==> forall i :: 0 <= i < |pts| ==> pts[i].x == pts[0].x)
  {
    var f := FrameOf(pts);
    if Dim(f.minX, f.maxX) == 0 {
      forall i | 0 <= i < |pts| ensures pts[i].x == pts[0].x {
        assert f.minX <= pts[i].x <= f.maxX;
      }
    } else {
      var i :| 0 <= i < |pts| && pts[i].x == f.maxX;
      var j :| 0 <= j < |pts| && pts[j].x == f.minX;
      assert pts[i].x != pts[j].x;
    }
  }

  /**
   * A produced raster has its lower-left corner at the points' minimum x and
   * y, every point inside its grid, cells that are the occupied cells, at
   * least ten of them, and some cluster.
   */
  lemma PlanRasterFacts(pts: seq<GeoPoint<Cell>>, dbscan: seq<(int, int)> -> seq<int>)
    requires ClusterOracle(dbscan)
    requires Plan(pts, dbscan).PlanRaster?
    ensures var p := Plan(pts, dbscan);
            |pts| >= DbscanMinSamples
            && p.lowerLeft == (FrameOf(pts).minX, FrameOf(pts).minY)
            && AllInGrid(GridHits(pts, FrameOf(pts)), p.rows, p.cols)
            && p.cells == OccupiedCells(GridHits(pts, FrameOf(pts)), p.rows, p.cols)
            && DbscanMinSamples <= |p.cells|
            && (exists i :: 0 <= i < |p.labels| && p.labels[i] >= 0)
  {
    assert |pts| >= DbscanMinSamples;
    var f := FrameOf(pts);
    var cols, rows := Dim(f.minX, f.maxX), Dim(f.minY, f.maxY);
    var hits := GridHits(pts, f);
    assert cols > 0 && rows > 0 && AllInGrid(hits, rows, cols);
    assert Plan(pts, dbscan) == GridPlan(hits, rows, cols, (f.minX, f.minY), dbscan);
    GridPlanRasterFacts(hits, rows, cols, (f.minX, f.minY), dbscan);
  }

  /** A produced raster has at least ten occupied cells and some cluster. */
  lemma GridPlanRasterFacts(hits: seq<Delivery>, rows: nat, cols: nat, lowerLeft: (real, real),
                            dbscan: seq<(int, int)> -> seq<int>)
    requires ClusterOracle(dbscan)
    requires GridPlan(hits, rows, cols, lowerLeft, dbscan).PlanRaster?
    ensures var p := GridPlan(hits, rows, cols, lowerLeft, dbscan);
            p.cells == OccupiedCells(hits, rows, cols)
            && DbscanMinSamples <= |p.cells|
            && (exists i :: 0 <= i < |p.labels| && p.labels[i] >= 0)
  {
    var p := GridPlan(hits, rows, cols, lowerLeft, dbscan);
    assert p.labels == dbscan(ClusterInput(p.cells));
    assert !AllNoise(p.labels);
    var i :| 0 <= i < |p.labels| && p.labels[i] != -1;
    assert p.labels[i] >= 0;
  }

  /**
   * No cell of a produced raster was reached by a NaN temperature: `np.maximum.at`
   * leaves such a cell NaN, and NaN is never above -9999.
   */
  lemma ClusteredCellsHaveReadings(pts: seq<GeoPoint<Cell>>, dbscan: seq<(int, int)> -> seq<int>)
    requires ClusterOracle(dbscan)
    requires Plan(pts, dbscan).PlanRaster?
    ensures var p := Plan(pts, dbscan);
            var hits := GridHits(pts, FrameOf(pts));
            forall i, k :: 0 <= i < |pts| && 0 <= k < |p.cells| && Delivers(hits[i], p.cells[k].0, p.cells[k].1) ==>
              pts[i].value.Num?
  {
    var p := Plan(pts, dbscan);
    var f := FrameOf(pts);
    var hits := GridHits(pts, f);
    PlanRasterFacts(pts, dbscan);
    OccupiedCellsHaveReadings(hits, p.rows, p.cols);
  }

  /** Every delivery to an occupied cell carries a number. */
  lemma OccupiedCellsHaveReadings(hits: seq<Delivery>, rows: nat, cols: nat)
    ensures var cells := OccupiedCells(hits, rows, cols);
            forall i, k :: 0 <= i < |hits| && 0 <= k < |cells| && Delivers(hits[i], cells[k].0, cells[k].1) ==>
              hits[i].value.Num?
  {
    var cells := OccupiedCells(hits, rows, cols);
    forall i, k | 0 <= i < |hits| && 0 <= k < |cells| && Delivers(hits[i], cells[k].0, cells[k].1)
      ensures hits[i].value.Num?
    {
      assert cells[k] in cells;
      OccupiedIff(hits, cells[k].0, cells[k].1);
    }
  }

  /** `np.maximum.at(grid, (point_ys, point_xs), point_temps)` on a fresh -9999 grid. */
  method BuildGrid(hits: seq<Delivery>, rows: nat, cols: nat) returns (grid: array2<Cell>)
    requires AllInGrid(hits, rows, cols)
    ensures fresh(grid) && grid.Length0 == rows && grid.Length1 == cols
    ensures forall r, c :: 0 <= r < rows && 0 <= c < cols ==> grid[r, c] == MaximumAt(hits, r, c, EmptyCell)
  {
    grid := new Cell[rows, cols]((r, c) => Num(EmptyCell));
    for i := 0 to |hits|
      invariant forall r, c :: 0 <= r < rows && 0 <= c < cols ==> grid[r, c] == MaximumAt(hits[..i], r, c, EmptyCell)
    {
      var h := hits[i];
      assert hits[..i + 1] == hits[..i] + [h];
      forall r, c | 0 <= r < rows && 0 <= c < cols {
        MaximumAtSnoc(hits[..i], h, r, c, EmptyCell);
      }
      grid[h.row, h.col] := Maximum(grid[h.row, h.col], h.value);
    }
    assert hits[..|hits|] == hits;
  }

  /** `np.where(grid > -9999.0)` read off the grid buffer. */
  method OccupiedOf(grid: array2<Cell>, ghost hits: seq<Delivery>) returns (cells: seq<(nat, nat)>)
    requires forall r, c :: 0 <= r < grid.Length0 && 0 <= c < grid.Length1 ==> grid[r, c] == MaximumAt(hits, r, c, EmptyCell)
    ensures cells == OccupiedCells(hits, grid.Length0, grid.Length1)
  {
    var rows, cols := grid.Length0, grid.Length1;
    var snapshot: seq<seq<Cell>> := seq(rows, r requires 0 <= r < rows reads grid =>
                      seq(cols, c requires 0 <= c < cols reads grid => grid[r, c]));
    cells := Indices.GridWhere(rows, cols, (r: nat, c: nat) => r < rows && c < cols && snapshot[r][c].Num? && snapshot[r][c].v > EmptyCell);
    Indices.GridWhereExt(rows, cols,
      (r: nat, c: nat) => r < rows && c < cols && snapshot[r][c].Num? && snapshot[r][c].v > EmptyCell,
      (r: nat, c: nat) => OccupiedIn(hits, r, c));
  }

  /**
   * The output raster: -1 everywhere, then `label + 1` at each clustered
   * cell (noise keeps -1).
   */
  method LabelRaster(rows: nat, cols: nat, cells: seq<(nat, nat)>, labels: seq<int>) returns (out: array2<int>)
    requires |labels| == |cells|
    requires forall i :: 0 <= i < |cells| ==> cells[i].0 < rows && cells[i].1 < cols
    requires forall i, j :: 0 <= i < j < |cells| ==> cells[i] != cells[j]
    requires forall i :: 0 <= i < |labels| ==> labels[i] >= -1
    ensures fresh(out) && out.Length0 == rows && out.Length1 == cols
    ensures forall i :: 0 <= i < |cells| && labels[i] != Nodata ==> out[cells[i].0, cells[i].1] == labels[i] + 1 >= 1
    ensures forall r, c :: (0 <= r < rows && 0 <= c < cols
              && (forall i :: 0 <= i < |cells| && cells[i] == (r, c) ==> labels[i] == Nodata)) ==>
              out[r, c] == Nodata
  {
    out := new int[rows, cols]((r, c) => Nodata);
    forall i | 0 <= i < |cells| && labels[i] != Nodata {
      out[cells[i].0, cells[i].1] := labels[i] + 1;
    }
  }

  datatype ThermalOutcome =
    | Skipped(reason: ThermalSkip)
    | Failed(message: string)
    | Produced(raster: array2<int>, lowerLeft: (real, real))

  /**
   * The outcome carries out the plan: the same skip or failure, or a raster of
   * the planned size where each clustered cell holds label + 1 and every
   * other cell holds -1.
   */
  predicate Realises(out: ThermalOutcome, p: ThermalPlan)
    reads if out.Produced? then {out.raster} else {}
  {
    match p
    case PlanSkip(reason) => out == Skipped(reason)
    case PlanFail(m) => out == Failed(m)
    case PlanRaster(rows, cols, cells, labels, lowerLeft) =>
      out.Produced? && out.lowerLeft == lowerLeft
      && out.raster.Length0 == rows && out.raster.Length1 == cols
      && (forall i :: (0 <= i < |cells| && i < |labels| && cells[i].0 < rows && cells[i].1 < cols
            && labels[i] != Nodata) ==> out.raster[cells[i].0, cells[i].1] == labels[i] + 1 >= 1)
      && (forall r, c :: (0 <= r < rows && 0 <= c < cols
            && (forall i :: 0 <= i < |cells| && i < |labels| && cells[i] == (r, c) ==> labels[i] == Nodata)) ==>
            out.raster[r, c] == Nodata)
  }

  /** The labelled raster as an outcome carrying out its raster plan. */
  method RasterOutcome(rows: nat, cols: nat, cells: seq<(nat, nat)>, labels: seq<int>, lowerLeft: (real, real))
    returns (out: ThermalOutcome)
    requires |labels| == |cells|
    requires forall i :: 0 <= i < |cells| ==> cells[i].0 < rows && cells[i].1 < cols
    requires forall i, j :: 0 <= i < j < |cells| ==> cells[i] != cells[j]
    requires forall i :: 0 <= i < |labels| ==> labels[i] >= -1
    ensures Realises(out, PlanRaster(rows, cols, cells, labels, lowerLeft))
    ensures out.Produced? ==> fresh(out.raster)
  {
    var output := LabelRaster(rows, cols, cells, labels);
    return Produced(output, lowerLeft);
  }

  /** From the grid hits to the outcome: bin, find occupied cells, cluster, label. */
  method ClusterGrid(hits: seq<Delivery>, rows: nat, cols: nat, lowerLeft: (real, real),
                     dbscan: seq<(int, int)> -> seq<int>) returns (out: ThermalOutcome)
    requires ClusterOracle(dbscan)
    requires AllInGrid(hits, rows, cols)
    ensures Realises(out, GridPlan(hits, rows, cols, lowerLeft, dbscan))
    ensures out.Produced? ==> fresh(out.raster)
  {
    var grid := BuildGrid(hits, rows, cols);
    var cells := OccupiedOf(grid, hits);
    ghost var plan := GridPlan(hits, rows, cols, lowerLeft, dbscan);
    if |cells| < DbscanMinSamples {
      assert plan == PlanSkip(TooFewGridCells(|cells|));
      return Skipped(TooFewGridCells(|cells|));
    }
    var labels := dbscan(ClusterInput(cells));
    if AllNoise(labels) {
      assert plan == PlanSkip(NoClusters);
      return Skipped(NoClusters);
    }
    assert plan == PlanRaster(rows, cols, cells, labels, lowerLeft);
    OccupiedCellsDistinct(hits, rows, cols);
    out := RasterOutcome(rows, cols, cells, labels, lowerLeft);
  }

  /**
   * From the anomalous points to the cluster raster: every occupied cell with
   * a cluster label holds label + 1, every other cell holds -1.
   */
  method ProcessThermal(pts: seq<GeoPoint<Cell>>, dbscan: seq<(int, int)> -> seq<int>) returns (out: ThermalOutcome)
    requires ClusterOracle(dbscan)
    ensures Realises(out, Plan(pts, dbscan))
    ensures out.Produced? ==> fresh(out.raster)
  {
    ghost var plan := Plan(pts, dbscan);
    if |pts| < DbscanMinSamples {
      assert plan == PlanSkip(TooFewAnomalousPoints(|pts|));
      return Skipped(TooFewAnomalousPoints(|pts|));
    }
    var f := FrameOf(pts);
    var cols, rows := Dim(f.minX, f.maxX), Dim(f.minY, f.maxY);
    if cols <= 0 || rows <= 0 {
      assert plan == PlanSkip(InvalidGridDimensions(rows, cols));
      return Skipped(InvalidGridDimensions(rows, cols));
    }
    var hits := GridHits(pts, f);
    if !AllInGrid(hits, rows, cols) {
      assert plan == PlanFail(GridIndexError);
      return Failed(GridIndexError);
    }
    assert Plan(pts, dbscan) == GridPlan(hits, rows, cols, (f.minX, f.minY), dbscan);
    out := ClusterGrid(hits, rows, cols, (f.minX, f.minY), dbscan);
  }

  /**
   * What the per-address block decides, from the images on, as written: the
   * anomaly mask is computed and passed, but the projection ignores it, so
   * every pixel with a valid range is gridded, NaN temperatures included.
   */
  function AddressPlan(temps: seq<seq<Cell>>, range: seq<seq<int>>, z: seq<seq<ZValue>>,
                       intr: Intrinsics, trig: Trig, origin: (real, real),
                       dbscan: seq<(int, int)> -> seq<int>): ThermalPlan
    requires SameShape(temps, range, AnomalyMask(z))
    requires ClusterOracle(dbscan)
  {
    if InsufficientData(temps) then PlanSkip(InsufficientValidData)
    else
      match GeoreferenceAsWritten(temps, range, AnomalyMask(z), intr, trig, origin)
      case Err(m) => PlanFail(m)
      case Ok(pts) => Plan(pts, dbscan)
  }

  /**
   * As written, the "not enough anomalous points" skip counts every pixel
   * with a valid range, anomalous or not: it is taken exactly when the image
   * passed the guard, the projection succeeded, and fewer than ten pixels
   * have a valid range.
   */
  lemma AddressPointCount(temps: seq<seq<Cell>>, range: seq<seq<int>>, z: seq<seq<ZValue>>,
                          intr: Intrinsics, trig: Trig, origin: (real, real),
                          dbscan: seq<(int, int)> -> seq<int>)
    requires SameShape(temps, range, AnomalyMask(z))
    requires ClusterOracle(dbscan)
    ensures var n := |PixelSet(range, AllTrue(|temps|, Width(temps)), |temps|, Width(temps))|;
            AddressPlan(temps, range, z, intr, trig, origin, dbscan) == PlanSkip(TooFewAnomalousPoints(n))
            <==> !InsufficientData(temps) && GeoreferenceAsWritten(temps, range, AnomalyMask(z), intr, trig, origin).Ok?
                 && n < DbscanMinSamples
  {
    var projected := GeoreferenceAsWritten(temps, range, AnomalyMask(z), intr, trig, origin);
    if !InsufficientData(temps) && projected.Ok? {
      assert AddressPlan(temps, range, z, intr, trig, origin, dbscan) == Plan(projected.value, dbscan);
    }
  }

  /**
   * As written, an address is clustered only when its image passed the data
   * guard and at least ten pixels had a valid range, whatever their z-scores.
   */
  lemma AddressRasterNeedsData(temps: seq<seq<Cell>>, range: seq<seq<int>>, z: seq<seq<ZValue>>,
                               intr: Intrinsics, trig: Trig, origin: (real, real),
                               dbscan: seq<(int, int)> -> seq<int>)
    requires SameShape(temps, range, AnomalyMask(z))
    requires ClusterOracle(dbscan)
    requires AddressPlan(temps, range, z, intr, trig, origin, dbscan).PlanRaster?
    ensures !InsufficientData(temps)
    ensures |PixelSet(range, AllTrue(|temps|, Width(temps)), |temps|, Width(temps))| >= DbscanMinSamples
  {
    var pts := GeoreferenceAsWritten(temps, range, AnomalyMask(z), intr, trig, origin).value;
    PlanRasterFacts(pts, dbscan);
  }

  /** The block of `main` for one address as written, from the images to the outcome. */
  method ThermalForAddress(temps: seq<seq<Cell>>, range: seq<seq<int>>, z: seq<seq<ZValue>>,
                           intr: Intrinsics, trig: Trig, origin: (real, real),
                           dbscan: seq<(int, int)> -> seq<int>) returns (out: ThermalOutcome)
    requires SameShape(temps, range, AnomalyMask(z))
    requires ClusterOracle(dbscan)
    ensures Realises(out, AddressPlan(temps, range, z, intr, trig, origin, dbscan))
    ensures out.Produced? ==> fresh(out.raster)
  {
    if InsufficientData(temps) {
      return Skipped(InsufficientValidData);
    }
    var projected := GeoreferenceAsWritten(temps, range, AnomalyMask(z), intr, trig, origin);
    if projected.Err? {
      return Failed(projected.error);
    }
    out := ProcessThermal(projected.value, dbscan);
  }

  /**
   * The block as intended: only the anomalous pixels are projected, so every
   * gridded point carries a temperature reading.
   */
  function IntendedAddressPlan(temps: seq<seq<Cell>>, range: seq<seq<int>>, z: seq<seq<ZValue>>,
                               intr: Intrinsics, trig: Trig, origin: (real, real),
                               dbscan: seq<(int, int)> -> seq<int>): ThermalPlan
    requires SameShape(temps, range, AnomalyMask(z)) && NanScores(temps, z)
    requires ClusterOracle(dbscan)
  {
    if InsufficientData(temps) then PlanSkip(InsufficientValidData)
    else
      match AnomalousPoints(temps, range, z, intr, trig, origin)
      case Err(m) => PlanFail(m)
      case Ok(pts) => Plan(pts, dbscan)
  }

  /**
   * As intended, an address is clustered only when its image passed the data
   * guard and at least ten anomalous pixels were projected.
   */
  lemma IntendedAddressRasterNeedsData(temps: seq<seq<Cell>>, range: seq<seq<int>>, z: seq<seq<ZValue>>,
                                       intr: Intrinsics, trig: Trig, origin: (real, real),
                                       dbscan: seq<(int, int)> -> seq<int>)
    requires SameShape(temps, range, AnomalyMask(z)) && NanScores(temps, z)
    requires ClusterOracle(dbscan)
    requires IntendedAddressPlan(temps, range, z, intr, trig, origin, dbscan).PlanRaster?
    ensures !InsufficientData(temps)
    ensures |PixelSet(range, AnomalyMask(z), |temps|, Width(temps))| >= DbscanMinSamples
  {
    var pts := AnomalousPoints(temps, range, z, intr, trig, origin).value;
    PlanRasterFacts(pts, dbscan);
  }

  /** The block for one address as intended, from the images to the outcome. */
  method IntendedThermalForAddress(temps: seq<seq<Cell>>, range: seq<seq<int>>, z: seq<seq<ZValue>>,
                                   intr: Intrinsics, trig: Trig, origin: (real, real),
                                   dbscan: seq<(int, int)> -> seq<int>) returns (out: ThermalOutcome)
    requires SameShape(temps, range, AnomalyMask(z)) && NanScores(temps, z)
    requires ClusterOracle(dbscan)
    ensures Realises(out, IntendedAddressPlan(temps, range, z, intr, trig, origin, dbscan))
    ensures out.Produced? ==> fresh(out.raster)
  {
    if InsufficientData(temps) {
      return Skipped(InsufficientValidData);
    }
    var projected := AnomalousPoints(temps, range, z, intr, trig, origin);
    if projected.Err? {
      return Failed(projected.error);
    }
    out := ProcessThermal(projected.value, dbscan);
  }
}
