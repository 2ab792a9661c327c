/**
 * Structural vegetation heights from one address's point cloud: keep the
 * points more than 2.5 m above the cloud's lowest point, strip the five most
 * prominent planes (walls, roofs), move the residue to national-grid
 * coordinates and rasterise the maximum height above ground into a 300 m
 * square around the address.
 */
module VegStructure {
  import opened Wrappers
  import Indices
  import opened PointClouds
  import opened Raster

  /** Height above the lowest point below which points count as ground. */
  const GroundClearance: real := 2.5
  /** Fewest above-ground points worth processing. */
  const MinAboveGroundPoints: nat := 100
  /** Planes removed by RANSAC. */
  const PlanePasses: nat := 5
  /** Half the side of the raster square, in metres. */
  const BufferDistance: real := 150.0
  /** The value every raster cell starts from. */
  const InitialHeight: real := -9999.0
  /** The cell size the tool runs with. */
  const CellSize: real := 1.0

  /**
   * What Open3D's `segment_plane` reports: the indices of one plane's inliers,
   * or the error it raises (for instance on fewer than three points).
   */
  datatype PlaneFit = Inliers(indices: seq<nat>) | FitError(message: string)

  /** The named reasons for producing no raster. */
  datatype SkipReason = EmptyPcd | NoAboveGroundPoints | NoComplexStructures | NoPointsInExtent

  /** The status string returned beside `None`. */
  function StatusName(s: SkipReason): string {
    match s
    case EmptyPcd => "EMPTY_PCD"
    case NoAboveGroundPoints => "NO_ABOVE_GROUND_POINTS"
    case NoComplexStructures => "NO_COMPLEX_STRUCTURES"
    case NoPointsInExtent => "NO_POINTS_IN_EXTENT"
  }

  /**
   * The result of `process_veg_structural`: a status with `None`, an exception
   * propagating to the caller, or the height raster with its lower-left corner.
   */
  datatype VegOutcome =
    | Skipped(reason: SkipReason)
    | Failed(message: string)
    | Produced(raster: array2<Cell>, lowerLeft: (real, real))

  /** The caller writes a raster exactly for a produced outcome. */
  predicate WritesRaster(out: VegOutcome) {
    out.Produced?
  }

  // ---------------------------------------------------------------- filters

  function AboveIndices(pts: seq<Point3>, ground: real): (idx: seq<nat>)
    ensures forall k: nat :: k in idx <==> k < |pts| && pts[k].z > ground + GroundClearance
    ensures forall i :: 0 <= i < |idx| ==> idx[i] < |pts|
    ensures forall i, j :: 0 <= i < j < |idx| ==> idx[i] < idx[j]
  {
    Indices.Where(|pts|, (k: nat) => k < |pts| && pts[k].z > ground + GroundClearance)
  }

  /**
   * `points[points[:, 2] > ground + 2.5]`: exactly the points above the
   * clearance, in input order.
   */
  function AboveGround(pts: seq<Point3>, ground: real): (r: seq<Point3>)
    ensures forall p :: p in r <==> p in pts && p.z > ground + GroundClearance
    ensures var idx := AboveIndices(pts, ground);
            |r| == |idx| && forall i :: 0 <= i < |r| ==> r[i] == pts[idx[i]]
  {
    var idx := AboveIndices(pts, ground);
    AboveGroundComplete(pts, ground);
    Indices.Pick(pts, idx)
  }

  lemma AboveGroundComplete(pts: seq<Point3>, ground: real)
    ensures var idx := AboveIndices(pts, ground);
            forall p :: p in pts && p.z > ground + GroundClearance ==> p in Indices.Pick(pts, idx)
  {
    var idx := AboveIndices(pts, ground);
    var r := Indices.Pick(pts, idx);
    forall p | p in pts && p.z > ground + GroundClearance
      ensures p in r
    {
      var k :| 0 <= k < |pts| && pts[k] == p;
      assert k in idx;
      var i :| 0 <= i < |idx| && idx[i] == k;
      assert r[i] == p;
    }
  }

  function KeptIndices(pts: seq<Point3>, inliers: seq<nat>): (idx: seq<nat>)
    ensures forall k: nat :: k in idx <==> k < |pts| && k !in inliers
    ensures forall i :: 0 <= i < |idx| ==> idx[i] < |pts|
    ensures forall i, j :: 0 <= i < j < |idx| ==> idx[i] < idx[j]
  {
    Indices.Where(|pts|, (k: nat) => k !in inliers)
  }

  /**
   * `select_by_index(inliers, invert=True)`: the points whose index is not an
   * inlier, in order.
   */
  function RemoveInliers(pts: seq<Point3>, inliers: seq<nat>): (r: seq<Point3>)
    ensures var idx := KeptIndices(pts, inliers);
            |r| == |idx| && forall i :: 0 <= i < |r| ==> r[i] == pts[idx[i]]
    ensures |r| <= |pts|
    ensures forall p :: p in r ==> p in pts
  {
    var idx := KeptIndices(pts, inliers);
    IncreasingBound(idx, |pts|);
    Indices.Pick(pts, idx)
  }

  /** An increasing list of positions below `n` has at most `n` entries. */
  lemma {:induction false} IncreasingBound(idx: seq<nat>, n: nat)
    requires forall i :: 0 <= i < |idx| ==> idx[i] < n
    requires forall i, j :: 0 <= i < j < |idx| ==> idx[i] < idx[j]
    ensures |idx| <= n
    decreases n
  {
    if |idx| > 0 {
      var front := idx[..|idx| - 1];
      assert forall i :: 0 <= i < |front| ==> front[i] < idx[|idx| - 1] <= n - 1;
      IncreasingBound(front, n - 1);
    }
  }

  /** The residue after `passes` rounds of plane removal. */
  function StripPasses(pts: seq<Point3>, fit: seq<Point3> -> PlaneFit, passes: nat): Result<seq<Point3>, string>
    decreases passes
  {
    if passes == 0 then Ok(pts)
    else
      match StripPasses(pts, fit, passes - 1)
      case Err(m) => Err(m)
      case Ok(rest) =>
        match fit(rest)
        case FitError(m) => Err(m)
        case Inliers(inl) => Ok(RemoveInliers(rest, inl))
  }

  /** A failing pass ends the stripping: the error is what comes out. */
  lemma {:induction false} StripErrorSticks(pts: seq<Point3>, fit: seq<Point3> -> PlaneFit, i: nat, n: nat, m: string)
    requires i <= n
    requires StripPasses(pts, fit, i) == Err(m)
    ensures StripPasses(pts, fit, n) == Err(m)
    decreases n - i
  {
    if i < n {
      StripErrorSticks(pts, fit, i + 1, n, m);
    }
  }

  /**
   * Each pass never adds points: the residue is no larger than the input and
   * every residual point is an input point.
   */
  lemma {:induction false} StripShrinks(pts: seq<Point3>, fit: seq<Point3> -> PlaneFit, passes: nat)
    ensures StripPasses(pts, fit, passes).Ok? ==>
              |StripPasses(pts, fit, passes).value| <= |pts|
              && forall p :: p in StripPasses(pts, fit, passes).value ==> p in pts
    decreases passes
  {
    if passes > 0 {
      StripShrinks(pts, fit, passes - 1);
    }
  }

  /** `for _ in range(5)`: five passes, each replacing the cloud by its residue. */
  method StripPlanes(above: seq<Point3>, fit: seq<Point3> -> PlaneFit) returns (res: Result<seq<Point3>, string>)
    ensures res == StripPasses(above, fit, PlanePasses)
  {
    var remaining := above;
    for pass := 0 to PlanePasses
      invariant StripPasses(above, fit, pass) == Ok(remaining)
    {
      match fit(remaining)
      case FitError(m) =>
        StripErrorSticks(above, fit, pass + 1, PlanePasses, m);
        return Err(m);
      case Inliers(inl) =>
        remaining := RemoveInliers(remaining, inl);
    }
    return Ok(remaining);
  }

  // ---------------------------------------------------------------- raster geometry

  datatype Extent = Extent(minX: real, maxX: real, minY: real, maxY: real)

  /** The square of side 300 m centred on the address. */
  function ExtentAround(coord: (real, real)): Extent {
    Extent(coord.0 - BufferDistance, coord.0 + BufferDistance,
           coord.1 - BufferDistance, coord.1 + BufferDistance)
  }

  function Cols(e: Extent, cs: real): int
    requires cs > 0.0
  {
    Ceil((e.maxX - e.minX) / cs)
  }

  function Rows(e: Extent, cs: real): int
    requires cs > 0.0
  {
    Ceil((e.maxY - e.minY) / cs)
  }

  /** The raster around an address is `ceil(300 / cs)` cells square. */
  lemma GridDims(coord: (real, real), cs: real)
    requires cs > 0.0
    ensures Rows(ExtentAround(coord), cs) == Cols(ExtentAround(coord), cs) == Ceil(300.0 / cs)
    ensures Ceil(300.0 / cs) >= 1
  {
    var e := ExtentAround(coord);
    assert e.maxX - e.minX == 300.0 && e.maxY - e.minY == 300.0;
    assert 300.0 / cs > 0.0;
  }

  /** Half-open bounds: the west and south edges are inside, east and north are not. */
  predicate InExtent(p: Point3, e: Extent) {
    e.minX <= p.x < e.maxX && e.minY <= p.y < e.maxY
  }

  function ColOf(p: Point3, e: Extent, cs: real): int
    requires cs > 0.0
  {
    Trunc((p.x - e.minX) / cs)
  }

  /** Rows count down from the north edge. */
  function RowOf(p: Point3, e: Extent, cs: real): int
    requires cs > 0.0
  {
    Trunc((e.maxY - p.y) / cs)
  }

  lemma DivNonNeg(a: real, cs: real)
    requires a >= 0.0 && cs > 0.0
    ensures a / cs >= 0.0
  {
  }

  lemma DivMonotone(a: real, b: real, cs: real)
    requires a <= b && cs > 0.0
    ensures a / cs <= b / cs
  {
    assert b / cs - a / cs == (b - a) / cs;
  }

  lemma DivStrictMonotone(a: real, b: real, cs: real)
    requires a < b && cs > 0.0
    ensures a / cs < b / cs
  {
    assert b / cs - a / cs == (b - a) / cs;
  }

  /** The column of a point inside the extent always lies in the raster. */
  lemma ColumnInBounds(p: Point3, coord: (real, real), cs: real)
    requires cs > 0.0
    requires InExtent(p, ExtentAround(coord))
    ensures 0 <= ColOf(p, ExtentAround(coord), cs) < Cols(ExtentAround(coord), cs)
  {
    var e := ExtentAround(coord);
    DivNonNeg(p.x - e.minX, cs);
    DivStrictMonotone(p.x - e.minX, 300.0, cs);
    assert e.maxX - e.minX == 300.0;
  }

  /**
   * The row of a point inside the extent is never negative; it equals the row
   * count, and the point is dropped, exactly when the point lies on the south
   * edge and `300 / cs` is a whole number.
   */
  lemma RowInBounds(p: Point3, coord: (real, real), cs: real)
    requires cs > 0.0
    requires InExtent(p, ExtentAround(coord))
    ensures 0 <= RowOf(p, ExtentAround(coord), cs) <= Rows(ExtentAround(coord), cs)
    ensures RowOf(p, ExtentAround(coord), cs) == Rows(ExtentAround(coord), cs)
            <==> p.y == ExtentAround(coord).minY && Floor(300.0 / cs) as real == 300.0 / cs
  {
    var e := ExtentAround(coord);
    assert e.maxY - e.minY == 300.0;
    var t := (e.maxY - p.y) / cs;
    DivNonNeg(e.maxY - p.y, cs);
    DivMonotone(e.maxY - p.y, 300.0, cs);
    if p.y > e.minY {
      DivStrictMonotone(e.maxY - p.y, 300.0, cs);
    }
  }

  /** With the tool's 1 m cells, a point on the south edge is dropped. */
  lemma SouthEdgeDropped(p: Point3, coord: (real, real))
    requires InExtent(p, ExtentAround(coord)) && p.y == ExtentAround(coord).minY
    ensures RowOf(p, ExtentAround(coord), CellSize) == Rows(ExtentAround(coord), CellSize)
  {
    RowInBounds(p, coord, CellSize);
    assert 300.0 / CellSize == 300.0;
  }

  lemma MulMonotone(a: real, b: real, cs: real)
    requires cs > 0.0
    ensures a < b <==> a * cs < b * cs
  {
    assert b * cs - a * cs == (b - a) * cs;
  }

  lemma DivLess(m: real, cs: real, x: real)
    requires cs > 0.0
    ensures m / cs < x <==> m < x * cs
  {
    var t := m / cs;
    assert t * cs == m;
    MulMonotone(t, x, cs);
  }

  /** `floor(m / cs) == n` exactly when `n cs <= m < (n + 1) cs`. */
  lemma DivBand(m: real, cs: real, n: int)
    requires cs > 0.0
    ensures Floor(m / cs) == n <==> n as real * cs <= m < (n + 1) as real * cs
  {
    FloorUnique(m / cs, n);
    DivLess(m, cs, n as real);
    DivLess(m, cs, (n + 1) as real);
  }

  /** Row `r` receives the points with `maxY - (r+1)cs < y <= maxY - r cs`. */
  lemma RowBand(p: Point3, e: Extent, cs: real, r: int)
    requires cs > 0.0 && p.y <= e.maxY
    ensures RowOf(p, e, cs) == r <==> e.maxY - (r + 1) as real * cs < p.y <= e.maxY - r as real * cs
  {
    DivNonNeg(e.maxY - p.y, cs);
    DivBand(e.maxY - p.y, cs, r);
  }

  // ---------------------------------------------------------------- height raster

  predicate Lands(p: Point3, e: Extent, cs: real, rows: int, cols: int)
    requires cs > 0.0
  {
    InExtent(p, e) && 0 <= RowOf(p, e, cs) < rows && 0 <= ColOf(p, e, cs) < cols
  }

  function HitOf(p: Point3, ground: real, e: Extent, cs: real): Hit
    requires cs > 0.0
  {
    Hit(RowOf(p, e, cs), ColOf(p, e, cs), p.z - ground)
  }

  /**
   * The cell updates the point loop attempts, in order: one per point inside
   * the extent whose cell is in bounds, carrying its height above ground.
   */
  function VegHits(pts: seq<Point3>, ground: real, e: Extent, cs: real, rows: int, cols: int): (hits: seq<Hit>)
    requires cs > 0.0
    ensures forall i :: 0 <= i < |hits| ==> 0 <= hits[i].row < rows && 0 <= hits[i].col < cols
    decreases |pts|
  {
    if pts == [] then []
    else
      var p := pts[|pts| - 1];
      var rest := VegHits(pts[..|pts| - 1], ground, e, cs, rows, cols);
      if Lands(p, e, cs, rows, cols) then rest + [HitOf(p, ground, e, cs)] else rest
  }

  /**
   * Every update comes from a point that lands in the raster, and every such
   * point contributes its update.
   */
  lemma {:induction false} VegHitsSources(pts: seq<Point3>, ground: real, e: Extent, cs: real, rows: int, cols: int)
    requires cs > 0.0
    ensures forall i :: 0 <= i < |VegHits(pts, ground, e, cs, rows, cols)| ==>
              exists j :: 0 <= j < |pts| && Lands(pts[j], e, cs, rows, cols)
                          && VegHits(pts, ground, e, cs, rows, cols)[i] == HitOf(pts[j], ground, e, cs)
    ensures forall j :: 0 <= j < |pts| && Lands(pts[j], e, cs, rows, cols) ==>
              HitOf(pts[j], ground, e, cs) in VegHits(pts, ground, e, cs, rows, cols)
    decreases |pts|
  {
    if pts != [] {
      var front := pts[..|pts| - 1];
      var last := pts[|pts| - 1];
      VegHitsSources(front, ground, e, cs, rows, cols);
      var rest := VegHits(front, ground, e, cs, rows, cols);
      var hits := VegHits(pts, ground, e, cs, rows, cols);
      assert hits == rest + (if Lands(last, e, cs, rows, cols) then [HitOf(last, ground, e, cs)] else []);
      forall i | 0 <= i < |hits|
        ensures exists j :: 0 <= j < |pts| && Lands(pts[j], e, cs, rows, cols) && hits[i] == HitOf(pts[j], ground, e, cs)
      {
        if i < |rest| {
          assert hits[i] == rest[i];
          var j :| 0 <= j < |front| && Lands(front[j], e, cs, rows, cols) && rest[i] == HitOf(front[j], ground, e, cs);
          assert pts[j] == front[j];
        } else {
          var j := |pts| - 1;
          assert Lands(pts[j], e, cs, rows, cols) && hits[i] == HitOf(pts[j], ground, e, cs);
        }
      }
      forall j | 0 <= j < |pts| && Lands(pts[j], e, cs, rows, cols)
        ensures HitOf(pts[j], ground, e, cs) in hits
      {
        if j < |front| {
          assert front[j] == pts[j];
        }
      }
    } else {
      assert VegHits(pts, ground, e, cs, rows, cols) == [];
    }
  }

  /** The updates of one more point. */
  lemma VegHitsSnoc(pts: seq<Point3>, i: nat, ground: real, e: Extent, cs: real, rows: int, cols: int)
    requires cs > 0.0 && i < |pts|
    ensures VegHits(pts[..i + 1], ground, e, cs, rows, cols)
            == VegHits(pts[..i], ground, e, cs, rows, cols)
               + (if Lands(pts[i], e, cs, rows, cols) then [HitOf(pts[i], ground, e, cs)] else [])
  {
    assert pts[..i + 1][..i] == pts[..i];
  }

  /** Negative cells (never updated) become NaN; others are kept. */
  function NanBelowZero(c: Cell): Cell {
    match c
    case Num(v) => if v < 0.0 then NaN else c
    case NaN => NaN
  }

  /** The final value of cell (r, c). */
  function HeightCell(hits: seq<Hit>, r: int, c: int): Cell {
    NanBelowZero(Num(CellMax(hits, r, c, InitialHeight)))
  }

  /**
   * When every point stands more than 2.5 m above ground, a cell is populated
   * exactly when a point lands in it, and then holds the largest of their
   * heights, itself above 2.5 m; only untouched cells are NaN.
   */
  lemma PopulatedCells(pts: seq<Point3>, ground: real, e: Extent, cs: real, rows: int, cols: int, r: int, c: int)
    requires cs > 0.0
    requires forall j :: 0 <= j < |pts| ==> pts[j].z > ground + GroundClearance
    ensures var hits := VegHits(pts, ground, e, cs, rows, cols);
            HeightCell(hits, r, c).Num? <==> exists i :: 0 <= i < |hits| && InCell(hits[i], r, c)
    ensures var hits := VegHits(pts, ground, e, cs, rows, cols);
            HeightCell(hits, r, c).Num? ==>
              HeightCell(hits, r, c).v > GroundClearance
              && HeightCell(hits, r, c).v == CellMax(hits, r, c, InitialHeight)
  {
    HitsAboveClearance(pts, ground, e, cs, rows, cols);
  }

  /** Points above the clearance deliver heights above the clearance. */
  lemma {:induction false} HitsAboveClearance(pts: seq<Point3>, ground: real, e: Extent, cs: real, rows: int, cols: int)
    requires cs > 0.0
    requires forall j :: 0 <= j < |pts| ==> pts[j].z > ground + GroundClearance
    ensures forall i :: 0 <= i < |VegHits(pts, ground, e, cs, rows, cols)| ==>
              VegHits(pts, ground, e, cs, rows, cols)[i].value > GroundClearance
    decreases |pts|
  {
    if pts != [] {
      var front, last := pts[..|pts| - 1], pts[|pts| - 1];
      assert forall j :: 0 <= j < |front| ==> front[j] == pts[j];
      HitsAboveClearance(front, ground, e, cs, rows, cols);
      var rest := VegHits(front, ground, e, cs, rows, cols);
      var extra := if Lands(last, e, cs, rows, cols) then [HitOf(last, ground, e, cs)] else [];
      assert VegHits(pts, ground, e, cs, rows, cols) == rest + extra;
      assert last.z > ground + GroundClearance;
      assert forall i :: 0 <= i < |extra| ==> extra[i].value > GroundClearance;
      var hits := rest + extra;
      forall i | 0 <= i < |hits|
        ensures hits[i].value > GroundClearance
      {
        if i < |rest| {
          assert hits[i] == rest[i];
        } else {
          assert hits[i] == extra[i - |rest|];
        }
      }
    }
  }

  /** No point in the extent leaves every cell untouched, and conversely. */
  lemma NoHitsNoPopulatedCell(pts: seq<Point3>, ground: real, e: Extent, cs: real, rows: int, cols: int)
    requires cs > 0.0
    requires forall j :: 0 <= j < |pts| ==> pts[j].z > ground + GroundClearance
    ensures var hits := VegHits(pts, ground, e, cs, rows, cols);
            (exists r, c :: 0 <= r < rows && 0 <= c < cols && HeightCell(hits, r, c).Num?) <==> hits != []
  {
    var hits := VegHits(pts, ground, e, cs, rows, cols);
    if hits != [] {
      PopulatedCells(pts, ground, e, cs, rows, cols, hits[0].row, hits[0].col);
      assert HeightCell(hits, hits[0].row, hits[0].col).Num?;
    } else {
      forall r, c | 0 <= r < rows && 0 <= c < cols ensures !HeightCell(hits, r, c).Num? {
        PopulatedCells(pts, ground, e, cs, rows, cols, r, c);
      }
    }
  }

  /** The `for p in veg_points_global` loop over a fresh -9999 raster. */
  method BuildHeightRaster(pts: seq<Point3>, ground: real, e: Extent, cs: real, rows: nat, cols: nat)
    returns (grid: array2<Cell>)
    requires cs > 0.0
    ensures fresh(grid) && grid.Length0 == rows && grid.Length1 == cols
    ensures forall r, c :: 0 <= r < rows && 0 <= c < cols ==>
              grid[r, c] == Num(CellMax(VegHits(pts, ground, e, cs, rows, cols), r, c, InitialHeight))
  {
    grid := new Cell[rows, cols]((r, c) => Num(InitialHeight));
    for i := 0 to |pts|
      invariant forall r, c :: 0 <= r < rows && 0 <= c < cols ==>
                  grid[r, c] == Num(CellMax(VegHits(pts[..i], ground, e, cs, rows, cols), r, c, InitialHeight))
    {
      PlacePoint(grid, pts, i, ground, e, cs);
    }
    assert pts[..|pts|] == pts;
  }

  /** One pass of the point loop: the point updates its cell when it lands in the raster. */
  method PlacePoint(grid: array2<Cell>, pts: seq<Point3>, i: nat, ground: real, e: Extent, cs: real)
    requires cs > 0.0 && i < |pts|
    requires forall r, c :: 0 <= r < grid.Length0 && 0 <= c < grid.Length1 ==>
               grid[r, c] == Num(CellMax(VegHits(pts[..i], ground, e, cs, grid.Length0, grid.Length1), r, c, InitialHeight))
    modifies grid
    ensures forall r, c :: 0 <= r < grid.Length0 && 0 <= c < grid.Length1 ==>
              grid[r, c] == Num(CellMax(VegHits(pts[..i + 1], ground, e, cs, grid.Length0, grid.Length1), r, c, InitialHeight))
  {
    var rows, cols := grid.Length0, grid.Length1;
    var p := pts[i];
    ghost var before := VegHits(pts[..i], ground, e, cs, rows, cols);
    ghost var after := VegHits(pts[..i + 1], ground, e, cs, rows, cols);
    VegHitsSnoc(pts, i, ground, e, cs, rows, cols);
    if e.minX <= p.x < e.maxX && e.minY <= p.y < e.maxY {
      var col := Trunc((p.x - e.minX) / cs);
      var row := Trunc((e.maxY - p.y) / cs);
      if 0 <= row < rows && 0 <= col < cols {
        var height := p.z - ground;
        assert Lands(p, e, cs, rows, cols) && HitOf(p, ground, e, cs) == Hit(row, col, height);
        assert after == before + [Hit(row, col, height)];
        UpdateCell(grid, row, col, height, before);
      } else {
        assert !Lands(p, e, cs, rows, cols);
        assert after == before;
      }
    } else {
      assert !Lands(p, e, cs, rows, cols);
      assert after == before;
    }
  }

  /** `if height > height_raster[row, col]: height_raster[row, col] = height`. */
  method UpdateCell(grid: array2<Cell>, row: int, col: int, height: real, ghost before: seq<Hit>)
    requires 0 <= row < grid.Length0 && 0 <= col < grid.Length1
    requires forall r, c :: 0 <= r < grid.Length0 && 0 <= c < grid.Length1 ==>
               grid[r, c] == Num(CellMax(before, r, c, InitialHeight))
    modifies grid
    ensures forall r, c :: 0 <= r < grid.Length0 && 0 <= c < grid.Length1 ==>
              grid[r, c] == Num(CellMax(before + [Hit(row, col, height)], r, c, InitialHeight))
  {
    forall r, c | 0 <= r < grid.Length0 && 0 <= c < grid.Length1 {
      CellMaxSnoc(before, Hit(row, col, height), r, c, InitialHeight);
    }
    if height > grid[row, col].v {
      grid[row, col] := Num(height);
    }
  }

  /** `height_raster[height_raster < 0] = np.nan`. */
  method NanFill(grid: array2<Cell>)
    modifies grid
    ensures forall r, c :: 0 <= r < grid.Length0 && 0 <= c < grid.Length1 ==>
              grid[r, c] == NanBelowZero(old(grid[r, c]))
  {
    forall r, c | 0 <= r < grid.Length0 && 0 <= c < grid.Length1 {
      grid[r, c] := NanBelowZero(grid[r, c]);
    }
  }

  /** `np.any(~np.isnan(height_raster))`. */
  predicate AnyPopulated(grid: array2<Cell>)
    reads grid
  {
    exists r, c :: 0 <= r < grid.Length0 && 0 <= c < grid.Length1 && grid[r, c].Num?
  }

  /** What `process_veg_structural` decides, independently of the raster buffer. */
  datatype VegPlan =
    | PlanSkip(reason: SkipReason)
    | PlanFail(message: string)
    | PlanRaster(ground: real, hits: seq<Hit>, rows: nat, cols: nat, lowerLeft: (real, real))

  /** The stripped residue of the above-ground points. */
  function Residue(cloud: seq<Point3>, fit: seq<Point3> -> PlaneFit): Result<seq<Point3>, string>
    requires cloud != []
  {
    StripPasses(AboveGround(cloud, MinZ(cloud)), fit, PlanePasses)
  }

  function Plan(cloud: seq<Point3>, coord: (real, real), cs: real, fit: seq<Point3> -> PlaneFit): VegPlan
    requires cs > 0.0
  {
    if cloud == [] then PlanSkip(EmptyPcd)
    else if |AboveGround(cloud, MinZ(cloud))| < MinAboveGroundPoints then PlanSkip(NoAboveGroundPoints)
    else
      match Residue(cloud, fit)
      case Err(m) => PlanFail(m)
      case Ok(veg) =>
        if veg == [] then PlanSkip(NoComplexStructures)
        else RasterPlan(veg, MinZ(cloud), coord, cs)
  }

  /** The raster part of the plan, once there is a residue: the translated points' updates, if any land. */
  function RasterPlan(veg: seq<Point3>, ground: real, coord: (real, real), cs: real): (pl: VegPlan)
    requires cs > 0.0
    ensures pl.PlanRaster? || pl == PlanSkip(NoPointsInExtent)
  {
    var e := ExtentAround(coord);
    GridDims(coord, cs);
    var hits := VegHits(Translate(veg, coord.0, coord.1), ground, e, cs, Rows(e, cs), Cols(e, cs));
    if hits == [] then PlanSkip(NoPointsInExtent)
    else PlanRaster(ground, hits, Rows(e, cs), Cols(e, cs), (e.minX, e.minY))
  }

  /** A raster plan comes from a non-empty residue. */
  lemma PlanIsRaster(cloud: seq<Point3>, coord: (real, real), cs: real, fit: seq<Point3> -> PlaneFit)
    requires cs > 0.0
    requires Plan(cloud, coord, cs, fit).PlanRaster?
    ensures cloud != [] && Residue(cloud, fit).Ok? && Residue(cloud, fit).value != []
    ensures Plan(cloud, coord, cs, fit) == RasterPlan(Residue(cloud, fit).value, MinZ(cloud), coord, cs)
  {
  }

  /** Every residual point, translated or not, stands more than 2.5 m above the ground. */
  lemma ResidualHeights(cloud: seq<Point3>, fit: seq<Point3> -> PlaneFit, coord: (real, real))
    requires cloud != []
    requires Residue(cloud, fit).Ok?
    ensures var global := Translate(Residue(cloud, fit).value, coord.0, coord.1);
            forall j :: 0 <= j < |global| ==> global[j].z > MinZ(cloud) + GroundClearance
  {
    var above := AboveGround(cloud, MinZ(cloud));
    var veg := Residue(cloud, fit).value;
    StripShrinks(above, fit, PlanePasses);
    forall j | 0 <= j < |veg| ensures veg[j].z > MinZ(cloud) + GroundClearance {
      assert veg[j] in veg;
    }
  }

  /**
   * A produced raster is `ceil(300 / cs)` cells square with its lower-left
   * corner 150 m south-west of the address, and measures heights from the
   * cloud's lowest point.
   */
  lemma PlanRasterShape(cloud: seq<Point3>, coord: (real, real), cs: real, fit: seq<Point3> -> PlaneFit)
    requires cs > 0.0
    requires Plan(cloud, coord, cs, fit).PlanRaster?
    ensures var pl := Plan(cloud, coord, cs, fit);
            pl.rows == pl.cols == Ceil(300.0 / cs)
            && pl.lowerLeft == (coord.0 - BufferDistance, coord.1 - BufferDistance)
            && pl.ground == MinZ(cloud)
  {
    PlanIsRaster(cloud, coord, cs, fit);
    RasterPlanShape(Residue(cloud, fit).value, MinZ(cloud), coord, cs);
  }

  lemma RasterPlanShape(veg: seq<Point3>, ground: real, coord: (real, real), cs: real)
    requires cs > 0.0
    requires RasterPlan(veg, ground, coord, cs).PlanRaster?
    ensures var pl := RasterPlan(veg, ground, coord, cs);
            pl.rows == pl.cols == Ceil(300.0 / cs)
            && pl.lowerLeft == (coord.0 - BufferDistance, coord.1 - BufferDistance)
            && pl.ground == ground
  {
    GridDims(coord, cs);
  }

  /** The heights of a raster plan over residual points above the clearance. */
  lemma RasterPlanCells(veg: seq<Point3>, ground: real, coord: (real, real), cs: real, r: int, c: int)
    requires cs > 0.0
    requires RasterPlan(veg, ground, coord, cs).PlanRaster?
    requires var global := Translate(veg, coord.0, coord.1);
             forall j :: 0 <= j < |global| ==> global[j].z > ground + GroundClearance
    ensures var pl := RasterPlan(veg, ground, coord, cs);
            (exists r, c :: 0 <= r < pl.rows && 0 <= c < pl.cols && HeightCell(pl.hits, r, c).Num?)
            && (HeightCell(pl.hits, r, c).Num? ==>
                  HeightCell(pl.hits, r, c).v > GroundClearance
                  && exists i :: 0 <= i < |pl.hits| && InCell(pl.hits[i], r, c) && pl.hits[i].value == HeightCell(pl.hits, r, c).v)
  {
    var pl := RasterPlan(veg, ground, coord, cs);
    var e := ExtentAround(coord);
    var global := Translate(veg, coord.0, coord.1);
    assert pl.hits == VegHits(global, ground, e, cs, pl.rows, pl.cols);
    NoHitsNoPopulatedCell(global, ground, e, cs, pl.rows, pl.cols);
    PopulatedCells(global, ground, e, cs, pl.rows, pl.cols, r, c);
  }

  /** A produced raster has at least one populated cell. */
  lemma PlanRasterPopulated(cloud: seq<Point3>, coord: (real, real), cs: real, fit: seq<Point3> -> PlaneFit)
    requires cs > 0.0
    requires Plan(cloud, coord, cs, fit).PlanRaster?
    ensures var pl := Plan(cloud, coord, cs, fit);
            exists r, c :: 0 <= r < pl.rows && 0 <= c < pl.cols && HeightCell(pl.hits, r, c).Num?
  {
    PlanIsRaster(cloud, coord, cs, fit);
    ResidualHeights(cloud, fit, coord);
    RasterPlanCells(Residue(cloud, fit).value, MinZ(cloud), coord, cs, 0, 0);
  }

  /**
   * Every cell of a produced raster is NaN or the largest height that landed
   * in it, which exceeds 2.5 m.
   */
  lemma PlanRasterCell(cloud: seq<Point3>, coord: (real, real), cs: real, fit: seq<Point3> -> PlaneFit, r: int, c: int)
    requires cs > 0.0
    requires Plan(cloud, coord, cs, fit).PlanRaster?
    ensures var pl := Plan(cloud, coord, cs, fit);
            HeightCell(pl.hits, r, c).Num? ==>
              HeightCell(pl.hits, r, c).v > GroundClearance
              && exists i :: 0 <= i < |pl.hits| && InCell(pl.hits[i], r, c) && pl.hits[i].value == HeightCell(pl.hits, r, c).v
  {
    PlanIsRaster(cloud, coord, cs, fit);
    ResidualHeights(cloud, fit, coord);
    RasterPlanCells(Residue(cloud, fit).value, MinZ(cloud), coord, cs, r, c);
  }

  /** Every plan but a raster is one of the named skips or the plane-fit error. */
  lemma PlanSkipConditions(cloud: seq<Point3>, coord: (real, real), cs: real, fit: seq<Point3> -> PlaneFit)
    requires cs > 0.0
    ensures Plan(cloud, coord, cs, fit) == PlanSkip(EmptyPcd) <==> cloud == []
    ensures Plan(cloud, coord, cs, fit) == PlanSkip(NoAboveGroundPoints) <==>
              cloud != [] && |AboveGround(cloud, MinZ(cloud))| < MinAboveGroundPoints
    ensures Plan(cloud, coord, cs, fit).PlanFail? ==> cloud != [] && Residue(cloud, fit).Err?
  {
    if cloud == [] {
      assert Plan(cloud, coord, cs, fit) == PlanSkip(EmptyPcd);
    } else if |AboveGround(cloud, MinZ(cloud))| < MinAboveGroundPoints {
      assert Plan(cloud, coord, cs, fit) == PlanSkip(NoAboveGroundPoints);
    } else {
      var res := Residue(cloud, fit);
      if res.Err? {
        assert Plan(cloud, coord, cs, fit) == PlanFail(res.error);
      } else if res.value == [] {
        assert Plan(cloud, coord, cs, fit) == PlanSkip(NoComplexStructures);
      } else {
        var pl := RasterPlan(res.value, MinZ(cloud), coord, cs);
        assert Plan(cloud, coord, cs, fit) == pl;
        assert pl.PlanRaster? || pl.reason == NoPointsInExtent;
      }
    }
  }

  /**
   * The two later skips: a residue that the five passes emptied, and a
   * residue none of whose translated points lands in the raster.
   */
  lemma PlanLateSkips(cloud: seq<Point3>, coord: (real, real), cs: real, fit: seq<Point3> -> PlaneFit)
    requires cs > 0.0
    ensures Plan(cloud, coord, cs, fit) == PlanSkip(NoComplexStructures) <==>
              cloud != [] && |AboveGround(cloud, MinZ(cloud))| >= MinAboveGroundPoints
              && Residue(cloud, fit).Ok? && Residue(cloud, fit).value == []
    ensures Plan(cloud, coord, cs, fit) == PlanSkip(NoPointsInExtent) <==>
              cloud != [] && |AboveGround(cloud, MinZ(cloud))| >= MinAboveGroundPoints
              && Residue(cloud, fit).Ok? && Residue(cloud, fit).value != []
              && var global := Translate(Residue(cloud, fit).value, coord.0, coord.1);
                 var e := ExtentAround(coord);
                 forall j :: 0 <= j < |global| ==> !Lands(global[j], e, cs, Rows(e, cs), Cols(e, cs))
  {
    if cloud != [] && |AboveGround(cloud, MinZ(cloud))| >= MinAboveGroundPoints && Residue(cloud, fit).Ok?
       && Residue(cloud, fit).value != [] {
      var veg := Residue(cloud, fit).value;
      var e := ExtentAround(coord);
      assert Plan(cloud, coord, cs, fit) == RasterPlan(veg, MinZ(cloud), coord, cs);
      NoHitsIffNoneLands(Translate(veg, coord.0, coord.1), MinZ(cloud), e, cs, Rows(e, cs), Cols(e, cs));
    }
  }

  /** The point loop updates no cell exactly when no point lands in the raster. */
  lemma NoHitsIffNoneLands(pts: seq<Point3>, ground: real, e: Extent, cs: real, rows: int, cols: int)
    requires cs > 0.0
    ensures VegHits(pts, ground, e, cs, rows, cols) == [] <==>
              forall j :: 0 <= j < |pts| ==> !Lands(pts[j], e, cs, rows, cols)
  {
    VegHitsSources(pts, ground, e, cs, rows, cols);
    var hits := VegHits(pts, ground, e, cs, rows, cols);
    if hits != [] {
      var j :| 0 <= j < |pts| && Lands(pts[j], e, cs, rows, cols) && hits[0] == HitOf(pts[j], ground, e, cs);
    }
  }

  /**
   * `process_veg_structural`: the outcome the plan describes, with the raster
   * buffer holding exactly the planned cells.
   */
  method ProcessVegStructural(cloud: seq<Point3>, coord: (real, real), cs: real, fit: seq<Point3> -> PlaneFit)
    returns (out: VegOutcome)
    requires cs > 0.0
    ensures Matches(out, Plan(cloud, coord, cs, fit))
    ensures out.Produced? ==> fresh(out.raster)
  {
    if cloud == [] {
      return Skipped(EmptyPcd);
    }
    var ground := MinZ(cloud);
    var above := AboveGround(cloud, ground);
    if |above| < MinAboveGroundPoints {
      return Skipped(NoAboveGroundPoints);
    }
    var stripped := StripPlanes(above, fit);
    if stripped.Err? {
      return Failed(stripped.error);
    }
    var veg := stripped.value;
    if veg == [] {
      return Skipped(NoComplexStructures);
    }
    ResidualHeights(cloud, fit, coord);
    out := ProduceRaster(veg, ground, coord, cs);
  }

  /** An outcome carries out a plan: the same skip or failure, or a fresh raster holding the planned cells. */
  ghost predicate Matches(out: VegOutcome, pl: VegPlan)
    reads if out.Produced? then {out.raster} else {}
  {
    match pl
    case PlanSkip(reason) => out == Skipped(reason)
    case PlanFail(m) => out == Failed(m)
    case PlanRaster(_, hits, rows, cols, lowerLeft) =>
      out.Produced? && out.lowerLeft == lowerLeft
      && out.raster.Length0 == rows && out.raster.Length1 == cols
      && forall r, c :: 0 <= r < rows && 0 <= c < cols ==> out.raster[r, c] == HeightCell(hits, r, c)
  }

  /** The raster half of `process_veg_structural`, from the residue on. */
  method ProduceRaster(veg: seq<Point3>, ground: real, coord: (real, real), cs: real) returns (out: VegOutcome)
    requires cs > 0.0
    requires var global := Translate(veg, coord.0, coord.1);
             forall j :: 0 <= j < |global| ==> global[j].z > ground + GroundClearance
    ensures Matches(out, RasterPlan(veg, ground, coord, cs))
    ensures out.Produced? ==> fresh(out.raster)
  {
    var global := Translate(veg, coord.0, coord.1);
    var e := ExtentAround(coord);
    GridDims(coord, cs);
    var rows, cols := Rows(e, cs), Cols(e, cs);
    var grid := BuildHeightRaster(global, ground, e, cs, rows, cols);
    NanFill(grid);
    ghost var hits := VegHits(global, ground, e, cs, rows, cols);
    assert forall r, c :: 0 <= r < rows && 0 <= c < cols ==> grid[r, c] == HeightCell(hits, r, c);
    NoHitsNoPopulatedCell(global, ground, e, cs, rows, cols);
    assert AnyPopulated(grid) <==> hits != [];
    if !AnyPopulated(grid) {
      return Skipped(NoPointsInExtent);
    }
    return Produced(grid, (e.minX, e.minY));
  }
}
