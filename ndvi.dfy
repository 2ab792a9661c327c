/**
 * NDVI rasters: the red channel of the RGB panorama and the near-infrared
 * image give a normalised difference per pixel, every pixel with a valid range
 * is georeferenced with its NDVI value, and a mean point-to-raster is
 * requested when any point exists.
 */
module Ndvi {
  import opened Wrappers
  import opened Projection

  /** The value a zero denominator is replaced by. */
  const ZeroDenominator: real := 0.00000001
  /** The column of a point that holds its NDVI (x, y, z, value). */
  const ValueIndex: nat := 3
  const Prefix: string := "NDVI"

  /** `nir + red`, with a zero sum replaced by 1e-8. */
  function Denominator(red: real, nir: real): (d: real)
    ensures d != 0.0
  {
    if nir + red == 0.0 then ZeroDenominator else nir + red
  }

  /** `(nir - red) / denominator`. */
  function NdviValue(red: real, nir: real): real {
    (nir - red) / Denominator(red, nir)
  }

  /** Wherever the bands do not sum to zero, NDVI is the normalised difference. */
  lemma NdviRatio(red: real, nir: real)
    requires nir + red != 0.0
    ensures NdviValue(red, nir) == (nir - red) / (nir + red)
  {
  }

  /**
   * For non-negative bands the substitute is used only where both bands are
   * 0, and NDVI is then 0.
   */
  lemma NdviZeroSum(red: real, nir: real)
    requires red >= 0.0 && nir >= 0.0
    ensures nir + red == 0.0 <==> red == 0.0 && nir == 0.0
    ensures nir + red == 0.0 ==> NdviValue(red, nir) == 0.0
  {
  }

  /** For non-negative bands NDVI lies in [-1, 1]. */
  lemma NdviBounds(red: real, nir: real)
    requires red >= 0.0 && nir >= 0.0
    ensures -1.0 <= NdviValue(red, nir) <= 1.0
  {
    var d := nir + red;
    if d != 0.0 {
      assert Denominator(red, nir) == d;
      assert d > 0.0;
      assert -d <= nir - red <= d;
      DivideWithin(nir - red, d);
    }
  }

  lemma DivideWithin(a: real, d: real)
    requires d > 0.0 && -d <= a <= d
    ensures -1.0 <= a / d <= 1.0
  {
    assert a / d * d == a;
  }

  /** Two bands of one shape. */
  predicate SameBands(red: seq<seq<real>>, nir: seq<seq<real>>) {
    IsGrid(red, |red|, Width(red)) && IsGrid(nir, |red|, Width(red))
  }

  /** The NDVI of each pixel. */
  function NdviImage(red: seq<seq<real>>, nir: seq<seq<real>>): (ndvi: seq<seq<real>>)
    requires SameBands(red, nir)
    ensures IsGrid(ndvi, |red|, Width(red))
  {
    seq(|red|, r requires 0 <= r < |red| =>
      seq(Width(red), c requires 0 <= c < Width(red) => NdviValue(red[r][c], nir[r][c])))
  }

  /**
   * `calculate_ndvi`: the denominator array is built, its zeros are replaced
   * in place, and the difference is divided by it.
   */
  method CalculateNdvi(red: seq<seq<real>>, nir: seq<seq<real>>) returns (ndvi: seq<seq<real>>)
    requires SameBands(red, nir)
    ensures ndvi == NdviImage(red, nir)
  {
    var rows, cols := |red|, Width(red);
    var d := DenominatorImage(red, nir);
    ndvi := seq(rows, r requires 0 <= r < rows =>
              seq(cols, c requires 0 <= c < cols => (nir[r][c] - red[r][c]) / d[r][c]));
    forall r | 0 <= r < rows ensures ndvi[r] == NdviImage(red, nir)[r] {
    }
  }

  /** `nir + red` as an array, with its zeros then replaced in place. */
  method DenominatorImage(red: seq<seq<real>>, nir: seq<seq<real>>) returns (d: seq<seq<real>>)
    requires SameBands(red, nir)
    ensures IsGrid(d, |red|, Width(red))
    ensures forall r, c :: 0 <= r < |red| && 0 <= c < Width(red) ==> d[r][c] == Denominator(red[r][c], nir[r][c])
  {
    var rows, cols := |red|, Width(red);
    var denominator := new real[rows, cols]((r: nat, c: nat) requires r < rows && c < cols => nir[r][c] + red[r][c]);
    ReplaceZeros(denominator);
    assert forall r, c :: 0 <= r < rows && 0 <= c < cols ==> denominator[r, c] == Denominator(red[r][c], nir[r][c]);
    d := seq(rows, r requires 0 <= r < rows reads denominator =>
           seq(cols, c requires 0 <= c < cols reads denominator => denominator[r, c]));
  }

  /** `denominator[denominator == 0] = 1e-8`, in place. */
  method ReplaceZeros(a: array2<real>)
    modifies a
    ensures forall r, c :: 0 <= r < a.Length0 && 0 <= c < a.Length1 ==>
              a[r, c] == if old(a[r, c]) == 0.0 then ZeroDenominator else old(a[r, c])
  {
    forall r, c | 0 <= r < a.Length0 && 0 <= c < a.Length1 && a[r, c] == 0.0 {
      a[r, c] := ZeroDenominator;
    }
  }

  /** `rgb_arr[:, :, 0]`; an image without a channel axis raises IndexError. */
  function RedBand(rgb: seq<seq<seq<real>>>): (r: Result<seq<seq<real>>, string>)
    ensures r.Err? <==> exists i, j :: 0 <= i < |rgb| && 0 <= j < |rgb[i]| && |rgb[i][j]| == 0
    ensures r.Ok? ==> |r.value| == |rgb|
                      && forall i :: 0 <= i < |rgb| ==>
                           |r.value[i]| == |rgb[i]| && forall j :: 0 <= j < |rgb[i]| ==> r.value[i][j] == rgb[i][j][0]
  {
    if exists i, j | 0 <= i < |rgb| && 0 <= j < |rgb[i]| :: |rgb[i][j]| == 0 then
      Err("too many indices for array")
    else
      Ok(seq(|rgb|, i requires 0 <= i < |rgb| => seq(|rgb[i]|, j requires 0 <= j < |rgb[i]| => rgb[i][j][0])))
  }

  // ---------------------------------------------------------------- configuration

  /** A decoded intrinsics file: top-level keys to objects of number lists. */
  type IntrinsicsFile = map<string, map<string, seq<real>>>

  datatype ConfigError = KeyError(message: string) | ValueError(message: string)

  const IntrinsicsKey: string := "beam_intrinsics"
  const AltitudeKey: string := "beam_altitude_angles"
  const AzimuthKey: string := "beam_azimuth_angles"

  /** The checks `main` runs on the intrinsics file before any address is processed. */
  function ValidateIntrinsics(data: IntrinsicsFile, path: string): (r: Result<Intrinsics, ConfigError>)
    ensures r.Err? && r.error.KeyError? <==> IntrinsicsKey !in data
    ensures r.Err? && r.error.ValueError? <==>
              IntrinsicsKey in data && (AltitudeKey !in data[IntrinsicsKey] || AzimuthKey !in data[IntrinsicsKey])
    ensures r.Ok? ==> IntrinsicsKey in data && AltitudeKey in data[IntrinsicsKey] && AzimuthKey in data[IntrinsicsKey]
                      && r.value == Intrinsics(data[IntrinsicsKey][AltitudeKey], data[IntrinsicsKey][AzimuthKey])
  {
    if IntrinsicsKey !in data then
      Err(KeyError("The key 'beam_intrinsics' was not found in " + path))
    else
      var intr := data[IntrinsicsKey];
      if AltitudeKey !in intr || AzimuthKey !in intr then
        Err(ValueError("The '" + path + "' file is missing required keys."))
      else
        Ok(Intrinsics(intr[AltitudeKey], intr[AzimuthKey]))
  }

  // ---------------------------------------------------------------- per address

  /** `create_raster_from_points`: nothing for no points, else the raster's file name. */
  function CreateRasterFromPoints(points: seq<GeoPoint<real>>, uprn: string, prefix: string): (r: Option<string>)
    ensures r.None? <==> points == []
  {
    if points == [] then None else Some(prefix + "_" + uprn + ".tif")
  }

  datatype NdviOutcome =
    | Failed(message: string)
    | NoPoints
    | RasterRequested(points: seq<GeoPoint<real>>, file: string)

  /** The images of one address, already resized to the RGB size. */
  datatype NdviInput = NdviInput(uprn: string, rgb: seq<seq<seq<real>>>, nir: seq<seq<real>>,
                                 range: seq<seq<int>>, origin: (real, real))

  /** The RGB, NIR and range images of the input share one shape. */
  predicate Resized(inp: NdviInput) {
    IsGrid(inp.rgb, |inp.rgb|, Width(inp.rgb)) && IsGrid(inp.nir, |inp.rgb|, Width(inp.rgb))
    && IsGrid(inp.range, |inp.rgb|, Width(inp.rgb))
  }

  /** The body of the per-address `try` block. */
  method NdviForAddress(inp: NdviInput, intr: Intrinsics, trig: Trig) returns (out: NdviOutcome)
    requires Resized(inp)
    ensures match RedBand(inp.rgb)
            case Err(m) => out == Failed(m)
            case Ok(red) =>
              SameBands(red, inp.nir)
              && var ndvi := NdviImage(red, inp.nir);
                 SameShape(ndvi, inp.range, AllTrue(|ndvi|, Width(ndvi)))
                 && match Georeference(ndvi, inp.range, AllTrue(|ndvi|, Width(ndvi)), intr, trig, inp.origin)
                    case Err(m) => out == Failed(m)
                    case Ok(pts) =>
                      (pts == [] ==> out == NoPoints)
                      && (pts != [] ==> out == RasterRequested(pts, Prefix + "_" + inp.uprn + ".tif"))
  {
    var band := RedBand(inp.rgb);
    if band.Err? {
      return Failed(band.error);
    }
    var red := band.value;
    assert Width(red) == Width(inp.rgb);
    var ndvi := CalculateNdvi(red, inp.nir);
    var all := AllTrue(|ndvi|, Width(ndvi));
    var projected := Georeference(ndvi, inp.range, all, intr, trig, inp.origin);
    if projected.Err? {
      return Failed(projected.error);
    }
    var file := CreateRasterFromPoints(projected.value, inp.uprn, Prefix);
    if file.None? {
      return NoPoints;
    }
    return RasterRequested(projected.value, file.value);
  }

  /**
   * Every point of a requested raster is a pixel with a valid range,
   * carries that pixel's NDVI, and the points number the valid pixels.
   */
  lemma NdviPoints(red: seq<seq<real>>, nir: seq<seq<real>>, range: seq<seq<int>>,
                   intr: Intrinsics, trig: Trig, origin: (real, real))
    requires SameBands(red, nir) && IsGrid(range, |red|, Width(red))
    requires Georeference(NdviImage(red, nir), range, AllTrue(|red|, Width(red)), intr, trig, origin).Ok?
    ensures var pts := Georeference(NdviImage(red, nir), range, AllTrue(|red|, Width(red)), intr, trig, origin).value;
            var cells := Selected(range, AllTrue(|red|, Width(red)), |red|, Width(red));
            |pts| == |cells|
            && forall i :: 0 <= i < |cells| ==>
                 ValidRange(range[cells[i].0][cells[i].1])
                 && pts[i].value == NdviValue(red[cells[i].0][cells[i].1], nir[cells[i].0][cells[i].1])
  {
    var all := AllTrue(|red|, Width(red));
    var cells := Selected(range, all, |red|, Width(red));
    assert forall i :: 0 <= i < |cells| ==> cells[i] in PixelSet(range, all, |red|, Width(red));
  }

  /** Outcome of the whole run: stopped by the configuration, or one outcome per address. */
  datatype NdviRun = ConfigFailed(error: ConfigError) | Processed(outcomes: seq<NdviOutcome>)

  /** `main`: validation first, then the addresses in order. */
  method RunNdvi(data: IntrinsicsFile, path: string, jobs: seq<NdviInput>, trig: Trig) returns (run: NdviRun)
    requires forall i :: 0 <= i < |jobs| ==> Resized(jobs[i])
    ensures run.ConfigFailed? <==> ValidateIntrinsics(data, path).Err?
    ensures run.ConfigFailed? ==> run.error == ValidateIntrinsics(data, path).error
    ensures run.Processed? ==> |run.outcomes| == |jobs|
  {
    var checked := ValidateIntrinsics(data, path);
    if checked.Err? {
      return ConfigFailed(checked.error);
    }
    var outcomes := [];
    for i := 0 to |jobs|
      invariant |outcomes| == i
    {
      var out := NdviForAddress(jobs[i], checked.value, trig);
      outcomes := outcomes + [out];
    }
    run := Processed(outcomes);
  }
}
