/**
 * Standard scores as the anomaly tools receive them from `scipy.stats.zscore`:
 * a finite value, or NaN where a column has no spread (0 / 0). The anomaly
 * test is the strict `|z| > 1.5`; NaN compares false.
 */
module ZScores {

  /** The threshold beyond which a pixel is anomalous. */
  const Threshold: real := 1.5

  datatype ZValue = Finite(v: real) | NonFinite

  function Abs(x: real): real {
    if x < 0.0 then -x else x
  }

  /** `|z| > 1.5` for one value; a non-finite value is never anomalous. */
  predicate Anomalous(z: ZValue) {
    z.Finite? && Abs(z.v) > Threshold
  }

  /** `z[~np.isfinite(z)] = 0`. */
  function Clean(z: ZValue): (r: ZValue)
    ensures r.Finite?
    ensures z.Finite? ==> r == z
  {
    if z.Finite? then z else Finite(0.0)
  }

  function CleanImage(z: seq<seq<ZValue>>): (r: seq<seq<ZValue>>)
    ensures |r| == |z|
    ensures forall i :: 0 <= i < |z| ==>
              (|r[i]| == |z[i]| && forall j :: 0 <= j < |z[i]| ==> r[i][j] == Clean(z[i][j]))
  {
    seq(|z|, i requires 0 <= i < |z| => seq(|z[i]|, j requires 0 <= j < |z[i]| => Clean(z[i][j])))
  }

  /** `np.abs(z) > 1.5` over a whole image. */
  function AnomalyMask(z: seq<seq<ZValue>>): (m: seq<seq<bool>>)
    ensures |m| == |z|
    ensures forall i :: 0 <= i < |z| ==>
              (|m[i]| == |z[i]| && forall j :: 0 <= j < |z[i]| ==> m[i][j] == Anomalous(z[i][j]))
  {
    seq(|z|, i requires 0 <= i < |z| => seq(|z[i]|, j requires 0 <= j < |z[i]| => Anomalous(z[i][j])))
  }

  /**
   * Cleaning before masking changes no mask bit: a non-finite score becomes 0,
   * which is no anomaly, just as NaN is none.
   */
  lemma CleanKeepsMask(z: seq<seq<ZValue>>)
    ensures AnomalyMask(CleanImage(z)) == AnomalyMask(z)
  {
    var a, b := AnomalyMask(CleanImage(z)), AnomalyMask(z);
    assert |a| == |b|;
    forall i | 0 <= i < |z| ensures a[i] == b[i] {
      assert |a[i]| == |b[i]|;
      forall j | 0 <= j < |z[i]| ensures a[i][j] == b[i][j] {
        assert a[i][j] == Anomalous(Clean(z[i][j]));
      }
    }
  }
}
