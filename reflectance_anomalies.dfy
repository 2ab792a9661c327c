/**
 * Reflectance anomalies for one address: pixels of the greyscale reflectance
 * image whose z-score exceeds 1.5 in magnitude are georeferenced, and their
 * positions become the point features a kernel density raster is built from.
 */
module ReflectanceAnomalies {
  import opened Wrappers
  import opened Projection
  import opened ZScores
  import PointClouds

  /** Fewest anomalous points worth a density raster. */
  const MinAnomalousPoints: nat := 2
  /** Kernel density search radius, in metres. */
  const SearchRadius: real := 5.0
  /** Output cell size, in metres. */
  const CellSize: real := 1.0

  /** `np.std(reflec_arr) == 0`: a non-empty image of one grey level. */
  predicate ZeroSpread(image: seq<seq<real>>) {
    |image| > 0 && Width(image) > 0
    && forall r, c :: 0 <= r < |image| && 0 <= c < |image[r]| ==> image[r][c] == image[0][0]
  }

  datatype ReflectanceOutcome =
    | ZeroVariance
    | TooFewAnomalies(count: nat)
    | Failed(message: string)
    | Features(points: seq<PointClouds.Point3>)

  /** The `SHAPE@XYZ` of each point; its z-score value is not stored. */
  function Positions(pts: seq<GeoPoint<ZValue>>): (r: seq<PointClouds.Point3>)
    ensures |r| == |pts|
    ensures forall i :: 0 <= i < |pts| ==> r[i] == PointClouds.Point3(pts[i].x, pts[i].y, pts[i].z)
  {
    seq(|pts|, i requires 0 <= i < |pts| => PointClouds.Point3(pts[i].x, pts[i].y, pts[i].z))
  }

  /**
   * The block of `main` for one address. `z` is `zscore(reflec_arr)`; the
   * non-finite ones are set to 0 before the mask is taken and the pixels are
   * projected with their cleaned z-scores as values.
   */
  function ReflectanceForAddress(reflec: seq<seq<real>>, range: seq<seq<int>>, z: seq<seq<ZValue>>,
                                 intr: Intrinsics, trig: Trig, origin: (real, real)): (out: ReflectanceOutcome)
    requires SameShape(reflec, range, AnomalyMask(z)) && |z| == |reflec|
    requires forall r :: 0 <= r < |z| ==> |z[r]| == |reflec[r]|
  {
    if ZeroSpread(reflec) then ZeroVariance
    else
      var cleaned := CleanImage(z);
      CleanKeepsMask(z);
      match Georeference(cleaned, range, AnomalyMask(cleaned), intr, trig, origin)
      case Err(m) => Failed(m)
      case Ok(pts) =>
        if |pts| < MinAnomalousPoints then TooFewAnomalies(|pts|)
        else Features(Positions(pts))
  }

  /**
   * A flat image is skipped; otherwise the features are exactly the
   * projections of the anomalous pixels with a valid range, in row-major
   * order, and their number is the number of such pixels.
   */
  lemma ReflectanceFeatures(reflec: seq<seq<real>>, range: seq<seq<int>>, z: seq<seq<ZValue>>,
                            intr: Intrinsics, trig: Trig, origin: (real, real))
    requires SameShape(reflec, range, AnomalyMask(z)) && |z| == |reflec|
    requires forall r :: 0 <= r < |z| ==> |z[r]| == |reflec[r]|
    ensures ZeroSpread(reflec) <==> ReflectanceForAddress(reflec, range, z, intr, trig, origin) == ZeroVariance
    ensures var out := ReflectanceForAddress(reflec, range, z, intr, trig, origin);
            var cells := Selected(range, AnomalyMask(z), |reflec|, Width(reflec));
            out.Features? ==>
              |out.points| == |cells| == |PixelSet(range, AnomalyMask(z), |reflec|, Width(reflec))| >= MinAnomalousPoints
              && forall i :: 0 <= i < |cells| ==>
                   Anomalous(z[cells[i].0][cells[i].1]) && ValidRange(range[cells[i].0][cells[i].1])
                   && out.points[i].x == ProjectPixel(CleanImage(z), range, intr, trig, origin, cells[i]).x
                   && out.points[i].y == ProjectPixel(CleanImage(z), range, intr, trig, origin, cells[i]).y
                   && out.points[i].z == ProjectPixel(CleanImage(z), range, intr, trig, origin, cells[i]).z
  {
    var cleaned := CleanImage(z);
    CleanKeepsMask(z);
    var cells := Selected(range, AnomalyMask(z), |reflec|, Width(reflec));
    assert forall i :: 0 <= i < |cells| ==> cells[i] in PixelSet(range, AnomalyMask(z), |reflec|, Width(reflec));
  }

  /** Both beam angle tables have entries. */
  predicate HasAngles(intr: Intrinsics) {
    |intr.altitudeDegrees| > 0 && |intr.azimuthDegrees| > 0
  }

  /**
   * Fewer than two anomalous points with a valid range: no raster. The
   * count reported is the number of such pixels.
   */
  lemma ReflectanceTooFew(reflec: seq<seq<real>>, range: seq<seq<int>>, z: seq<seq<ZValue>>,
                          intr: Intrinsics, trig: Trig, origin: (real, real))
    requires SameShape(reflec, range, AnomalyMask(z)) && |z| == |reflec|
    requires forall r :: 0 <= r < |z| ==> |z[r]| == |reflec[r]|
    requires !ZeroSpread(reflec)
    requires |PixelSet(range, AnomalyMask(z), |reflec|, Width(reflec))| < MinAnomalousPoints
    requires HasAngles(intr) || PixelSet(range, AnomalyMask(z), |reflec|, Width(reflec)) == {}
    ensures ReflectanceForAddress(reflec, range, z, intr, trig, origin)
            == TooFewAnomalies(|PixelSet(range, AnomalyMask(z), |reflec|, Width(reflec))|)
  {
    CleanKeepsMask(z);
  }

  /**
   * The address fails exactly when a non-flat image has an anomalous pixel
   * with a valid range but a beam angle table is empty.
   */
  lemma ReflectanceFails(reflec: seq<seq<real>>, range: seq<seq<int>>, z: seq<seq<ZValue>>,
                         intr: Intrinsics, trig: Trig, origin: (real, real))
    requires SameShape(reflec, range, AnomalyMask(z)) && |z| == |reflec|
    requires forall r :: 0 <= r < |z| ==> |z[r]| == |reflec[r]|
    ensures ReflectanceForAddress(reflec, range, z, intr, trig, origin).Failed?
            <==> !ZeroSpread(reflec) && PixelSet(range, AnomalyMask(z), |reflec|, Width(reflec)) != {} && !HasAngles(intr)
  {
    CleanKeepsMask(z);
  }
}
