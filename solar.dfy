/**
 * The solar-radiation batch: each address's point cloud is moved to
 * national-grid coordinates by its geocode, turned into a surface model
 * and handed to the radiation tool. Empty clouds are skipped silently, any
 * exception is recorded as `"{uprn} (Error: {e})"` and the batch goes on.
 */
module Solar {
  import opened Wrappers
  import opened PointClouds
  import Batch
  import Dicts
  import Registry

  /** The rows of an N x 3 coordinate array as points. */
  function CloudOf(a: array2<real>): (pts: seq<Point3>)
    requires a.Length1 == 3
    reads a
    ensures |pts| == a.Length0
    ensures forall i :: 0 <= i < a.Length0 ==> pts[i] == Point3(a[i, 0], a[i, 1], a[i, 2])
  {
    seq(a.Length0, i requires 0 <= i < a.Length0 reads a => Point3(a[i, 0], a[i, 1], a[i, 2]))
  }

  /**
   * `points_global = points_local.copy()` followed by the column updates
   * `points_global[:, 0] += uprn_x` and `points_global[:, 1] += uprn_y`:
   * a new array holding the translated cloud, the local array untouched.
   */
  method TranslateCopy(local: array2<real>, ux: real, uy: real) returns (global: array2<real>)
    requires local.Length1 == 3
    ensures fresh(global)
    ensures global.Length0 == local.Length0 && global.Length1 == 3
    ensures CloudOf(global) == Translate(CloudOf(local), ux, uy)
  {
    var n := local.Length0;
    global := new real[n, 3]((i: nat, j: nat) reads local requires i < n && j < 3 => local[i, j]);
    AddToColumn(global, 0, ux);
    AddToColumn(global, 1, uy);
    ghost var moved := Translate(CloudOf(local), ux, uy);
    assert forall k :: 0 <= k < n ==> CloudOf(global)[k] == moved[k];
  }

  /** `a[:, col] += d`: one column shifted in place, every other entry unchanged. */
  method AddToColumn(a: array2<real>, col: nat, d: real)
    requires col < a.Length1
    modifies a
    ensures forall k, j :: 0 <= k < a.Length0 && 0 <= j < a.Length1 ==>
              a[k, j] == old(a[k, j]) + (if j == col then d else 0.0)
  {
    for r := 0 to a.Length0
      invariant forall k, j :: 0 <= k < a.Length0 && 0 <= j < a.Length1 ==>
                  a[k, j] == old(a[k, j]) + (if j == col && k < r then d else 0.0)
    {
      a[r, col] := a[r, col] + d;
    }
  }

  /** A finished address: skipped for an empty cloud, or its translated cloud went to the tools. */
  datatype SolarOutcome = SkippedEmpty | SurfaceSaved(global: seq<Point3>)

  /** `str(KeyError(uprn))`, the message of a missing geocode. */
  function KeyErrorMessage(uprn: string): string {
    "'" + uprn + "'"
  }

  /**
   * The `try` block for one address: reading the cloud may raise, an empty
   * cloud is skipped (`continue`), `coords[uprn]` raises for an address
   * without a geocode, and the ArcPy steps may raise.
   */
  function SolarAttempt(uprn: string, coords: map<string, (real, real)>, cloud: Batch.Attempt<seq<Point3>>,
                        toolError: Option<string>): (a: Batch.Attempt<SolarOutcome>)
    ensures a.Raised? ==> a.kind == "Error"
    ensures a.Completed? && a.result.SurfaceSaved? ==>
              cloud.Completed? && uprn in coords && toolError.None?
              && a.result.global == Translate(cloud.result, coords[uprn].0, coords[uprn].1)
  {
    match cloud
    case Raised(_, message) => Batch.Raised("Error", message)
    case Completed(pts) =>
      if pts == [] then Batch.Completed(SkippedEmpty)
      else if uprn !in coords then Batch.Raised("Error", KeyErrorMessage(uprn))
      else
        match toolError
        case Some(message) => Batch.Raised("Error", message)
        case None => Batch.Completed(SurfaceSaved(Translate(pts, coords[uprn].0, coords[uprn].1)))
  }

  function SolarAttempts(uprns: seq<string>, coords: map<string, (real, real)>, clouds: seq<Batch.Attempt<seq<Point3>>>,
                         toolErrors: seq<Option<string>>): (r: seq<Batch.Attempt<SolarOutcome>>)
    requires |uprns| == |clouds| == |toolErrors|
    ensures |r| == |uprns|
  {
    seq(|uprns|, i requires 0 <= i < |uprns| => SolarAttempt(uprns[i], coords, clouds[i], toolErrors[i]))
  }

  /** The surfaces handed to the radiation tool, in processing order. */
  function Surfaces(uprns: seq<string>, attempts: seq<Batch.Attempt<SolarOutcome>>): seq<(string, seq<Point3>)>
    requires |uprns| == |attempts|
  {
    if uprns == [] then []
    else
      var n := |uprns| - 1;
      Surfaces(uprns[..n], attempts[..n])
      + (if attempts[n].Completed? && attempts[n].result.SurfaceSaved? then [(uprns[n], attempts[n].result.global)] else [])
  }

  /**
   * The loop of `main`: every address is tried in turn and the failures are
   * collected with their messages.
   */
  method RunSolar(uprns: seq<string>, coords: map<string, (real, real)>, clouds: seq<Batch.Attempt<seq<Point3>>>,
                  toolErrors: seq<Option<string>>) returns (failed: seq<string>, surfaces: seq<(string, seq<Point3>)>)
    requires |uprns| == |clouds| == |toolErrors|
    ensures failed == Batch.Failures(uprns, SolarAttempts(uprns, coords, clouds, toolErrors))
    ensures surfaces == Surfaces(uprns, SolarAttempts(uprns, coords, clouds, toolErrors))
  {
    ghost var attempts := SolarAttempts(uprns, coords, clouds, toolErrors);
    failed, surfaces := [], [];
    for i := 0 to |uprns|
      invariant failed == Batch.Failures(uprns[..i], attempts[..i])
      invariant surfaces == Surfaces(uprns[..i], attempts[..i])
    {
      assert uprns[..i + 1][..i] == uprns[..i] && attempts[..i + 1][..i] == attempts[..i];
      var uprn := uprns[i];
      match clouds[i]
      case Raised(_, message) =>
        failed := failed + [Batch.FailureLine(uprn, "Error", message)];
      case Completed(pts) =>
        if pts != [] {
          if uprn !in coords {
            failed := failed + [Batch.FailureLine(uprn, "Error", KeyErrorMessage(uprn))];
          } else {
            var global := Translate(pts, coords[uprn].0, coords[uprn].1);
            match toolErrors[i]
            case Some(message) =>
              failed := failed + [Batch.FailureLine(uprn, "Error", message)];
            case None =>
              surfaces := surfaces + [(uprn, global)];
          }
        }
    }
    assert uprns[..|uprns|] == uprns && attempts[..|attempts|] == attempts;
  }

  /**
   * With every address geocoded, an address fails exactly when its cloud
   * could not be read, or is non-empty and an ArcPy step raised; an empty
   * cloud never fails.
   */
  lemma GeocodedFailures(uprns: seq<string>, coords: map<string, (real, real)>, clouds: seq<Batch.Attempt<seq<Point3>>>,
                         toolErrors: seq<Option<string>>, i: nat)
    requires |uprns| == |clouds| == |toolErrors| && i < |uprns|
    requires forall j :: 0 <= j < |uprns| ==> uprns[j] in coords
    ensures SolarAttempts(uprns, coords, clouds, toolErrors)[i].Raised?
            <==> clouds[i].Raised? || (clouds[i].result != [] && toolErrors[i].Some?)
    ensures clouds[i] == Batch.Completed([]) ==> SolarAttempts(uprns, coords, clouds, toolErrors)[i] == Batch.Completed(SkippedEmpty)
  {
  }

  /** The `i`-th address produced `entry`: its cloud moved by its geocode. */
  predicate SurfaceFrom(entry: (string, seq<Point3>), uprns: seq<string>, coords: map<string, (real, real)>,
                        clouds: seq<Batch.Attempt<seq<Point3>>>, i: int) {
    0 <= i < |uprns| && i < |clouds| && entry.0 == uprns[i] && entry.0 in coords && clouds[i].Completed?
    && entry.1 == Translate(clouds[i].result, coords[entry.0].0, coords[entry.0].1)
  }

  /** Every surface belongs to a processed address and is its cloud moved by the address's geocode. */
  lemma {:induction false} SurfaceTranslated(uprns: seq<string>, coords: map<string, (real, real)>,
                                             clouds: seq<Batch.Attempt<seq<Point3>>>, toolErrors: seq<Option<string>>, k: nat)
    requires |uprns| == |clouds| == |toolErrors|
    requires k < |Surfaces(uprns, SolarAttempts(uprns, coords, clouds, toolErrors))|
    ensures exists i :: SurfaceFrom(Surfaces(uprns, SolarAttempts(uprns, coords, clouds, toolErrors))[k], uprns, coords, clouds, i)
    decreases |uprns|
  {
    var n := |uprns| - 1;
    var attempts := SolarAttempts(uprns, coords, clouds, toolErrors);
    var front := SolarAttempts(uprns[..n], coords, clouds[..n], toolErrors[..n]);
    assert attempts[..n] == front;
    var s := Surfaces(uprns, attempts);
    var sf := Surfaces(uprns[..n], front);
    if k < |sf| {
      assert s[k] == sf[k];
      SurfaceTranslated(uprns[..n], coords, clouds[..n], toolErrors[..n], k);
      var i :| SurfaceFrom(sf[k], uprns[..n], coords, clouds[..n], i);
      assert uprns[..n][i] == uprns[i] && clouds[..n][i] == clouds[i];
      assert SurfaceFrom(s[k], uprns, coords, clouds, i);
    } else {
      assert s[k] == (uprns[n], attempts[n].result.global);
      assert SurfaceFrom(s[k], uprns, coords, clouds, n);
    }
  }

  /**
   * The addresses of the merged ICP/centre file map all have geocodes,
   * because both walks are filtered by the geocoded set.
   */
  lemma ProcessedAddressesGeocoded(rows: seq<Registry.GeocodeRow>, icpWalk: seq<Registry.WalkEntry>,
                                   centreWalk: seq<Registry.WalkEntry>, matches: string -> bool)
    ensures var coords := Dicts.Assoc(Registry.Accepts(rows, Registry.RowKey));
            var icp := Dicts.Assoc(Registry.Candidates(icpWalk, matches, coords.Keys));
            var centre := Dicts.Assoc(Registry.Candidates(centreWalk, matches, coords.Keys));
            Registry.Merged(icp, centre).Keys <= coords.Keys
  {
    var coords := Dicts.Assoc(Registry.Accepts(rows, Registry.RowKey));
    var pi := Registry.Candidates(icpWalk, matches, coords.Keys);
    var pc := Registry.Candidates(centreWalk, matches, coords.Keys);
    assert Dicts.Assoc(pi).Keys <= coords.Keys by {
      forall k | k in Dicts.Assoc(pi) ensures k in coords {
        var i :| 0 <= i < |pi| && pi[i].0 == k;
      }
    }
    assert Dicts.Assoc(pc).Keys <= coords.Keys by {
      forall k | k in Dicts.Assoc(pc) ensures k in coords {
        var i :| 0 <= i < |pc| && pc[i].0 == k;
      }
    }
    Registry.MergedGeocoded(Dicts.Assoc(pi), Dicts.Assoc(pc), coords.Keys);
  }

  /** The log file is written only when something failed, one line per entry. */
  function FailureLog(failed: seq<string>): (log: Option<string>)
    ensures log.None? <==> failed == []
    ensures log.Some? ==> log.value == Batch.LogFile(failed)
  {
    if failed == [] then None else Some(Batch.LogFile(failed))
  }
}
