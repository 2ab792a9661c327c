/**
 * The centroid table: the geocoded addresses that have a point cloud are
 * written to a CSV, a header first and then one row per non-empty cloud
 * with the cloud's centre (the mean of its points).
 */
module Centroids {
  import opened PointClouds
  import Batch
  import Indices

  /** `{uprn: path for uprn, path in pcd_files.items() if uprn in geocoded_uprns}`. */
  function ToProcess(pcdFiles: map<string, string>, geocoded: set<string>): (m: map<string, string>)
    ensures m.Keys <= pcdFiles.Keys && m.Keys <= geocoded
    ensures forall k :: k in pcdFiles && k in geocoded ==> k in m && m[k] == pcdFiles[k]
  {
    map k | k in pcdFiles && k in geocoded :: pcdFiles[k]
  }

  function SumX(pts: seq<Point3>): real
    decreases |pts|
  {
    if pts == [] then 0.0 else SumX(pts[..|pts| - 1]) + pts[|pts| - 1].x
  }

  function SumY(pts: seq<Point3>): real
    decreases |pts|
  {
    if pts == [] then 0.0 else SumY(pts[..|pts| - 1]) + pts[|pts| - 1].y
  }

  function SumZ(pts: seq<Point3>): real
    decreases |pts|
  {
    if pts == [] then 0.0 else SumZ(pts[..|pts| - 1]) + pts[|pts| - 1].z
  }

  /** `pcd.get_center()`: the mean of the points. */
  function Centre(pts: seq<Point3>): Point3
    requires pts != []
  {
    var n := |pts| as real;
    Point3(SumX(pts) / n, SumY(pts) / n, SumZ(pts) / n)
  }

  /** Translating a cloud adds the offset once per point to the x sum. */
  lemma {:induction false} SumXTranslate(pts: seq<Point3>, dx: real, dy: real)
    ensures SumX(Translate(pts, dx, dy)) == SumX(pts) + (|pts| as real) * dx
    decreases |pts|
  {
    if pts != [] {
      var n := |pts| - 1;
      var t := Translate(pts, dx, dy);
      assert t[..n] == Translate(pts[..n], dx, dy);
      SumXTranslate(pts[..n], dx, dy);
      assert (n as real) * dx + dx == (|pts| as real) * dx;
    }
  }

  /** Translating a cloud adds the offset once per point to the y sum. */
  lemma {:induction false} SumYTranslate(pts: seq<Point3>, dx: real, dy: real)
    ensures SumY(Translate(pts, dx, dy)) == SumY(pts) + (|pts| as real) * dy
    decreases |pts|
  {
    if pts != [] {
      var n := |pts| - 1;
      var t := Translate(pts, dx, dy);
      assert t[..n] == Translate(pts[..n], dx, dy);
      SumYTranslate(pts[..n], dx, dy);
      assert (n as real) * dy + dy == (|pts| as real) * dy;
    }
  }

  /** Translating a cloud leaves the z sum. */
  lemma {:induction false} SumZTranslate(pts: seq<Point3>, dx: real, dy: real)
    ensures SumZ(Translate(pts, dx, dy)) == SumZ(pts)
    decreases |pts|
  {
    if pts != [] {
      var n := |pts| - 1;
      var t := Translate(pts, dx, dy);
      assert t[..n] == Translate(pts[..n], dx, dy);
      SumZTranslate(pts[..n], dx, dy);
    }
  }

  /** The centre of a translated cloud is the translated centre: x and y move, z does not. */
  lemma CentreTranslate(pts: seq<Point3>, dx: real, dy: real)
    requires pts != []
    ensures Centre(Translate(pts, dx, dy)) == Point3(Centre(pts).x + dx, Centre(pts).y + dy, Centre(pts).z)
  {
    SumXTranslate(pts, dx, dy);
    SumYTranslate(pts, dx, dy);
    SumZTranslate(pts, dx, dy);
    MeanShift(SumX(pts), |pts| as real, dx);
    MeanShift(SumY(pts), |pts| as real, dy);
  }

  lemma MeanShift(s: real, n: real, d: real)
    requires n > 0.0
    ensures (s + n * d) / n == s / n + d
  {
  }

  /** A row of the output CSV. */
  datatype CsvRow = Header(names: seq<string>) | CentreRow(uprn: string, centre: Point3)

  const HeaderNames: seq<string> := ["UPRN", "X", "Y", "Z"]

  /** The rows written for the processed addresses, after the header. */
  function CentreRows(uprns: seq<string>, clouds: seq<Batch.Attempt<seq<Point3>>>): seq<CsvRow>
    requires |uprns| == |clouds|
    decreases |uprns|
  {
    if uprns == [] then []
    else
      var n := |uprns| - 1;
      CentreRows(uprns[..n], clouds[..n])
      + (if clouds[n].Completed? && clouds[n].result != [] then [CentreRow(uprns[n], Centre(clouds[n].result))] else [])
  }

  /** The number of readable, non-empty clouds. */
  function Readable(clouds: seq<Batch.Attempt<seq<Point3>>>): nat
    decreases |clouds|
  {
    if clouds == [] then 0
    else
      var n := |clouds| - 1;
      Readable(clouds[..n]) + (if clouds[n].Completed? && clouds[n].result != [] then 1 else 0)
  }

  /** One row per readable, non-empty cloud, each naming its own address and holding its cloud's centre. */
  lemma {:induction false} CentreRowsFacts(uprns: seq<string>, clouds: seq<Batch.Attempt<seq<Point3>>>)
    requires |uprns| == |clouds|
    ensures |CentreRows(uprns, clouds)| == Readable(clouds)
    ensures forall r :: r in CentreRows(uprns, clouds) ==>
              r.CentreRow? && exists i :: 0 <= i < |uprns| && r.uprn == uprns[i] && clouds[i].Completed?
                                         && clouds[i].result != [] && r.centre == Centre(clouds[i].result)
    decreases |uprns|
  {
    if uprns != [] {
      var n := |uprns| - 1;
      CentreRowsFacts(uprns[..n], clouds[..n]);
      forall r | r in CentreRows(uprns, clouds)
        ensures r.CentreRow? && exists i :: 0 <= i < |uprns| && r.uprn == uprns[i] && clouds[i].Completed?
                                            && clouds[i].result != [] && r.centre == Centre(clouds[i].result)
      {
        if r in CentreRows(uprns[..n], clouds[..n]) {
          var i :| 0 <= i < n && r.uprn == uprns[..n][i] && clouds[..n][i].Completed?
                   && clouds[..n][i].result != [] && r.centre == Centre(clouds[..n][i].result);
          assert uprns[..n][i] == uprns[i] && clouds[..n][i] == clouds[i];
        } else {
          assert r == CentreRow(uprns[n], Centre(clouds[n].result));
        }
      }
    }
  }

  /** `f"ERROR: Could not process UPRN {uprn} at {pcd_path}: {e}"`. */
  function ErrorMessage(uprn: string, path: string, message: string): string {
    "ERROR: Could not process UPRN " + uprn + " at " + path + ": " + message
  }

  /** The error messages printed for clouds that could not be read, in processing order. */
  function ErrorMessages(uprns: seq<string>, paths: seq<string>, clouds: seq<Batch.Attempt<seq<Point3>>>): seq<string>
    requires |uprns| == |paths| == |clouds|
    decreases |uprns|
  {
    if uprns == [] then []
    else
      var n := |uprns| - 1;
      ErrorMessages(uprns[..n], paths[..n], clouds[..n])
      + (if clouds[n].Raised? then [ErrorMessage(uprns[n], paths[n], clouds[n].message)] else [])
  }

  /**
   * The CSV-writing part of `main`: the header, then the centre of every
   * non-empty cloud of the addresses to process, in dict order; a cloud
   * that cannot be read is reported and skipped.
   */
  method WriteCentres(toProcess: map<string, string>, order: seq<string>, clouds: seq<Batch.Attempt<seq<Point3>>>)
    returns (rows: seq<CsvRow>, errors: seq<string>)
    requires Indices.Distinct(order) && |order| == |clouds|
    requires forall k :: k in toProcess <==> k in order
    ensures rows == [Header(HeaderNames)] + CentreRows(order, clouds)
    ensures errors == ErrorMessages(order, seq(|order|, i requires 0 <= i < |order| => toProcess[order[i]]), clouds)
  {
    ghost var paths := seq(|order|, i requires 0 <= i < |order| => toProcess[order[i]]);
    rows, errors := [Header(HeaderNames)], [];
    for i := 0 to |order|
      invariant rows == [Header(HeaderNames)] + CentreRows(order[..i], clouds[..i])
      invariant errors == ErrorMessages(order[..i], paths[..i], clouds[..i])
    {
      assert order[..i + 1][..i] == order[..i] && clouds[..i + 1][..i] == clouds[..i] && paths[..i + 1][..i] == paths[..i];
      var uprn := order[i];
      var pcdPath := toProcess[uprn];
      match clouds[i]
      case Raised(_, message) =>
        errors := errors + [ErrorMessage(uprn, pcdPath, message)];
      case Completed(pts) =>
        if pts != [] {
          rows := rows + [CentreRow(uprn, Centre(pts))];
        }
    }
    assert order[..|order|] == order && clouds[..|clouds|] == clouds && paths[..|paths|] == paths;
  }

  /** Every centre row names an address that has a cloud file and a geocode. */
  lemma CentreRowsProcessed(pcdFiles: map<string, string>, geocoded: set<string>, order: seq<string>,
                            clouds: seq<Batch.Attempt<seq<Point3>>>)
    requires |order| == |clouds|
    requires forall k :: k in ToProcess(pcdFiles, geocoded) <==> k in order
    ensures forall r :: r in CentreRows(order, clouds) ==> r.CentreRow? && r.uprn in pcdFiles && r.uprn in geocoded
  {
    CentreRowsFacts(order, clouds);
  }
}
