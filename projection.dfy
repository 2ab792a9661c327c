/**
 * Georeferencing of a panoramic sensor image: every selected pixel becomes a
 * 3-D point by taking the range image's distance (millimetres) along the beam
 * whose altitude angle belongs to the pixel's row and whose azimuth angle
 * belongs to its column, offset by the address's easting/northing.
 * Used by the thermal, reflectance and NDVI tools.
 */
module Projection {
  import opened Wrappers
  import Indices

  /** Range readings accepted: strictly between 0 and this many millimetres. */
  const RangeSanityMax: int := 100000
  /** Millimetres per metre. */
  const RangeScale: real := 1000.0
  /** `np.pi` as a double. */
  const Pi: real := 3.141592653589793

  /** Cosine and sine are left uninterpreted: the model is exact up to them. */
  datatype Trig = Trig(cos: real -> real, sin: real -> real)

  /** The sensor's beam tables, in degrees: one altitude per image row, one azimuth per column. */
  datatype Intrinsics = Intrinsics(altitudeDegrees: seq<real>, azimuthDegrees: seq<real>)

  /** A georeferenced point: easting, northing, height above the sensor, pixel value. */
  datatype GeoPoint<T> = GeoPoint(x: real, y: real, z: real, value: T)

  /** `np.deg2rad`. */
  function Radians(degrees: real): real {
    degrees * Pi / 180.0
  }

  /** A rectangular `rows` x `cols` grid. */
  predicate IsGrid<T>(g: seq<seq<T>>, rows: nat, cols: nat) {
    |g| == rows && forall r :: 0 <= r < rows ==> |g[r]| == cols
  }

  /** The second dimension of a 2-D array. */
  function Width<T>(g: seq<seq<T>>): nat {
    if |g| == 0 then 0 else |g[0]|
  }

  /** Three arrays of one shape: image, range image and filter mask. */
  predicate SameShape<T>(image: seq<seq<T>>, range: seq<seq<int>>, mask: seq<seq<bool>>) {
    IsGrid(image, |image|, Width(image)) && IsGrid(range, |image|, Width(image))
    && IsGrid(mask, |image|, Width(image))
  }

  /** A range reading that is kept. */
  predicate ValidRange(d: int) {
    0 < d < RangeSanityMax
  }

  /** `np.full(shape, True)`: the mask that keeps every pixel. */
  function AllTrue(rows: nat, cols: nat): (m: seq<seq<bool>>)
    ensures IsGrid(m, rows, cols)
    ensures forall r, c :: 0 <= r < rows && 0 <= c < cols ==> m[r][c]
  {
    seq(rows, r => seq(cols, c => true))
  }

  /** The pixels the mask selects and whose range reading is valid. */
  ghost function PixelSet(range: seq<seq<int>>, mask: seq<seq<bool>>, rows: nat, cols: nat): set<(nat, nat)>
    requires IsGrid(range, rows, cols) && IsGrid(mask, rows, cols)
  {
    set r: nat, c: nat | r < rows && c < cols && mask[r][c] && ValidRange(range[r][c]) :: (r, c)
  }

  /**
   * `np.where(mask)` followed by the range filter: the selected pixels,
   * in row-major order.
   */
  function Selected(range: seq<seq<int>>, mask: seq<seq<bool>>, rows: nat, cols: nat): (cells: seq<(nat, nat)>)
    requires IsGrid(range, rows, cols) && IsGrid(mask, rows, cols)
    ensures forall q :: q in cells <==> q in PixelSet(range, mask, rows, cols)
    ensures forall q :: q in cells ==> q.0 < rows && q.1 < cols
    ensures forall i, j :: 0 <= i < j < |cells| ==> Indices.RowMajorBefore(cells[i], cells[j])
  {
    Indices.GridWhere(rows, cols,
      (r: nat, c: nat) => r < rows && c < cols && mask[r][c] && ValidRange(range[r][c]))
  }

  /** One point per selected pixel: no pixel is projected twice or skipped. */
  lemma SelectedCount(range: seq<seq<int>>, mask: seq<seq<bool>>, rows: nat, cols: nat)
    requires IsGrid(range, rows, cols) && IsGrid(mask, rows, cols)
    ensures |Selected(range, mask, rows, cols)| == |PixelSet(range, mask, rows, cols)|
  {
    var cells := Selected(range, mask, rows, cols);
    assert Indices.Distinct(cells) by {
      forall i, j | 0 <= i < j < |cells| ensures cells[i] != cells[j] {
        assert Indices.RowMajorBefore(cells[i], cells[j]);
      }
    }
    Indices.DistinctCardinality(cells);
    assert (set x | x in cells) == PixelSet(range, mask, rows, cols);
  }

  /**
   * The point of one pixel. Row and column indices beyond the angle tables are
   * clamped to the tables' last entry.
   */
  function ProjectPixel<T>(image: seq<seq<T>>, range: seq<seq<int>>, intr: Intrinsics, trig: Trig,
                           origin: (real, real), cell: (nat, nat)): GeoPoint<T>
    requires cell.0 < |image| && cell.1 < |image[cell.0]|
    requires cell.0 < |range| && cell.1 < |range[cell.0]|
    requires |intr.altitudeDegrees| > 0 && |intr.azimuthDegrees| > 0
  {
    var (r, c) := cell;
    var d := range[r][c] as real / RangeScale;
    var alt := Radians(intr.altitudeDegrees[if r < |intr.altitudeDegrees| then r else |intr.altitudeDegrees| - 1]);
    var azi := Radians(intr.azimuthDegrees[if c < |intr.azimuthDegrees| then c else |intr.azimuthDegrees| - 1]);
    GeoPoint(origin.0 + d * trig.cos(alt) * trig.cos(azi),
             origin.1 + d * trig.cos(alt) * trig.sin(azi),
             d * trig.sin(alt),
             image[r][c])
  }

  /**
   * `georeference_pixels_to_points`: the points of the selected pixels, in
   * row-major pixel order; no pixel gives `[]` without touching the angle
   * tables; an empty angle table otherwise raises an IndexError.
   */
  function Georeference<T>(image: seq<seq<T>>, range: seq<seq<int>>, mask: seq<seq<bool>>,
                           intr: Intrinsics, trig: Trig, origin: (real, real)): (r: Result<seq<GeoPoint<T>>, string>)
    requires SameShape(image, range, mask)
    ensures r.Err? <==> PixelSet(range, mask, |image|, Width(image)) != {}
                        && (|intr.altitudeDegrees| == 0 || |intr.azimuthDegrees| == 0)
    ensures r.Ok? ==> |r.value| == |PixelSet(range, mask, |image|, Width(image))|
    ensures r.Ok? ==> var cells := Selected(range, mask, |image|, Width(image));
                      |r.value| == |cells|
                      && forall i :: 0 <= i < |cells| ==>
                           r.value[i] == ProjectPixel(image, range, intr, trig, origin, cells[i])
  {
    var cells := Selected(range, mask, |image|, Width(image));
    SelectedCount(range, mask, |image|, Width(image));
    if |cells| == 0 then
      Ok([])
    else if |intr.altitudeDegrees| == 0 || |intr.azimuthDegrees| == 0 then
      assert cells[0] in PixelSet(range, mask, |image|, Width(image));
      Err("index -1 is out of bounds for axis 0 with size 0")
    else
      Ok(seq(|cells|, i requires 0 <= i < |cells| =>
        ProjectPixel(image, range, intr, trig, origin, cells[i])))
  }

  /** A pixel is projected exactly when the mask selects it and its range is valid. */
  lemma ProjectedPixels<T>(image: seq<seq<T>>, range: seq<seq<int>>, mask: seq<seq<bool>>,
                           intr: Intrinsics, trig: Trig, origin: (real, real), r: nat, c: nat)
    requires SameShape(image, range, mask)
    requires Georeference(image, range, mask, intr, trig, origin).Ok?
    ensures (exists i :: 0 <= i < |Selected(range, mask, |image|, Width(image))|
                         && Selected(range, mask, |image|, Width(image))[i] == (r, c))
            <==> r < |image| && c < Width(image) && mask[r][c] && ValidRange(range[r][c])
  {
    var cells := Selected(range, mask, |image|, Width(image));
    if r < |image| && c < Width(image) && mask[r][c] && ValidRange(range[r][c]) {
      assert (r, c) in PixelSet(range, mask, |image|, Width(image));
      assert (r, c) in cells;
    }
  }

  /**
   * With a trigonometry satisfying cos^2 + sin^2 = 1, every point lies at the
   * measured distance from the sensor position above the origin.
   */
  lemma ProjectedDistance<T>(image: seq<seq<T>>, range: seq<seq<int>>, intr: Intrinsics, trig: Trig,
                             origin: (real, real), cell: (nat, nat))
    requires cell.0 < |image| && cell.1 < |image[cell.0]|
    requires cell.0 < |range| && cell.1 < |range[cell.0]|
    requires |intr.altitudeDegrees| > 0 && |intr.azimuthDegrees| > 0
    requires forall a :: trig.cos(a) * trig.cos(a) + trig.sin(a) * trig.sin(a) == 1.0
    ensures var p := ProjectPixel(image, range, intr, trig, origin, cell);
            var d := range[cell.0][cell.1] as real / RangeScale;
            (p.x - origin.0) * (p.x - origin.0) + (p.y - origin.1) * (p.y - origin.1) + p.z * p.z == d * d
  {
    var p := ProjectPixel(image, range, intr, trig, origin, cell);
    var (r, c) := cell;
    var d := range[r][c] as real / RangeScale;
    var alt := Radians(intr.altitudeDegrees[if r < |intr.altitudeDegrees| then r else |intr.altitudeDegrees| - 1]);
    var azi := Radians(intr.azimuthDegrees[if c < |intr.azimuthDegrees| then c else |intr.azimuthDegrees| - 1]);
    var ca, sa, cz, sz := trig.cos(alt), trig.sin(alt), trig.cos(azi), trig.sin(azi);
    assert p.x - origin.0 == d * ca * cz;
    assert p.y - origin.1 == d * ca * sz;
    assert p.z == d * sa;
    assert cz * cz + sz * sz == 1.0;
    assert ca * ca + sa * sa == 1.0;
    calc {
      (d * ca * cz) * (d * ca * cz) + (d * ca * sz) * (d * ca * sz) + (d * sa) * (d * sa);
      (d * d) * (ca * ca) * (cz * cz + sz * sz) + (d * d) * (sa * sa);
      (d * d) * (ca * ca + sa * sa);
      d * d;
    }
  }

  /** Moving the origin translates every point horizontally and changes nothing else. */
  lemma OriginShift<T>(image: seq<seq<T>>, range: seq<seq<int>>, mask: seq<seq<bool>>,
                       intr: Intrinsics, trig: Trig, o1: (real, real), o2: (real, real))
    requires SameShape(image, range, mask)
    ensures var r1 := Georeference(image, range, mask, intr, trig, o1);
            var r2 := Georeference(image, range, mask, intr, trig, o2);
            r1.Ok? == r2.Ok?
            && (r1.Ok? ==>
                  (|r1.value| == |r2.value|
                   && forall i :: 0 <= i < |r1.value| ==>
                        r2.value[i].x - r1.value[i].x == o2.0 - o1.0
                        && r2.value[i].y - r1.value[i].y == o2.1 - o1.1
                        && r2.value[i].z == r1.value[i].z
                        && r2.value[i].value == r1.value[i].value))
  {
  }

  /** Narrowing the mask can only drop points. */
  lemma MaskMonotone(range: seq<seq<int>>, m1: seq<seq<bool>>, m2: seq<seq<bool>>, rows: nat, cols: nat)
    requires IsGrid(range, rows, cols) && IsGrid(m1, rows, cols) && IsGrid(m2, rows, cols)
    requires forall r, c :: 0 <= r < rows && 0 <= c < cols && m1[r][c] ==> m2[r][c]
    ensures PixelSet(range, m1, rows, cols) <= PixelSet(range, m2, rows, cols)
    ensures |Selected(range, m1, rows, cols)| <= |Selected(range, m2, rows, cols)|
  {
    SelectedCount(range, m1, rows, cols);
    SelectedCount(range, m2, rows, cols);
    assert PixelSet(range, m1, rows, cols) <= PixelSet(range, m2, rows, cols);
    SubsetCardinality(PixelSet(range, m1, rows, cols), PixelSet(range, m2, rows, cols));
  }

  lemma SubsetCardinality<T>(a: set<T>, b: set<T>)
    requires a <= b
    ensures |a| <= |b|
  {
    assert b == a + (b - a);
  }
}
