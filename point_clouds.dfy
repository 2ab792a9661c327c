/**
 * Point clouds as the scripts hold them (an N x 3 array of local x, y, z), and
 * their translation from the scanner's local frame to national-grid
 * coordinates by adding an address's easting and northing.
 */
module PointClouds {

  datatype Point3 = Point3(x: real, y: real, z: real)

  /** Adds `dx` to every x and `dy` to every y; z is left alone. */
  function Translate(pts: seq<Point3>, dx: real, dy: real): (r: seq<Point3>)
    ensures |r| == |pts|
    ensures forall i :: 0 <= i < |pts| ==>
              r[i].x == pts[i].x + dx && r[i].y == pts[i].y + dy && r[i].z == pts[i].z
  {
    seq(|pts|, i requires 0 <= i < |pts| => Point3(pts[i].x + dx, pts[i].y + dy, pts[i].z))
  }

  /** Translating back by the opposite offset restores the local points. */
  lemma TranslateInverse(pts: seq<Point3>, dx: real, dy: real)
    ensures Translate(Translate(pts, dx, dy), -dx, -dy) == pts
  {
    var back := Translate(Translate(pts, dx, dy), -dx, -dy);
    assert forall i :: 0 <= i < |pts| ==> back[i] == pts[i];
  }

  /** Two translations compose into one. */
  lemma TranslateCompose(pts: seq<Point3>, dx1: real, dy1: real, dx2: real, dy2: real)
    ensures Translate(Translate(pts, dx1, dy1), dx2, dy2) == Translate(pts, dx1 + dx2, dy1 + dy2)
  {
    var a, b := Translate(Translate(pts, dx1, dy1), dx2, dy2), Translate(pts, dx1 + dx2, dy1 + dy2);
    assert forall i :: 0 <= i < |pts| ==> a[i] == b[i];
  }

  /** The lowest z of a non-empty cloud (`np.min(points[:, 2])`). */
  function MinZ(pts: seq<Point3>): (m: real)
    requires |pts| > 0
    ensures forall i :: 0 <= i < |pts| ==> m <= pts[i].z
    ensures exists i :: 0 <= i < |pts| && pts[i].z == m
    decreases |pts|
  {
    if |pts| == 1 then pts[0].z
    else
      var rest := MinZ(pts[1..]);
      assert forall i :: 1 <= i < |pts| ==> pts[i] == pts[1..][i - 1];
      if pts[0].z <= rest then pts[0].z else rest
  }
}
