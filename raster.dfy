/**
 * Shared raster arithmetic: the rounding functions numpy and Python apply to
 * cell indices and grid sizes, the max-aggregation of point values into cells,
 * and float cells that may hold NaN.
 */
module Raster {

  /** `math.floor` / `np.floor` on reals. */
  function Floor(x: real): (n: int)
    ensures n as real <= x < n as real + 1.0
  {
    x.Floor
  }

  /** The floor is the one integer within a unit below `x`. */
  lemma FloorUnique(x: real, n: int)
    ensures Floor(x) == n <==> n as real <= x < n as real + 1.0
  {
    var f := Floor(x);
    if n as real <= x < n as real + 1.0 {
      assert f < n + 1 && n < f + 1;
    }
  }

  /** `np.ceil`, then `int(...)`. */
  function Ceil(x: real): (n: int)
    ensures x <= n as real < x + 1.0
    ensures n == Floor(x) <==> n as real == x
  {
    -((-x).Floor)
  }

  /** Python `int(x)` and numpy `astype(int)`: rounding toward zero. */
  function Trunc(x: real): (n: int)
    ensures x >= 0.0 ==> n == Floor(x)
    ensures x < 0.0 ==> n == Ceil(x)
  {
    if x >= 0.0 then x.Floor else -((-x).Floor)
  }

  /** A float cell: NaN or a number. NaN compares false with everything. */
  datatype Cell = NaN | Num(v: real)

  /** One point value delivered to the cell (row, col). */
  datatype Hit = Hit(row: int, col: int, value: real)

  predicate InCell(h: Hit, r: int, c: int) {
    h.row == r && h.col == c
  }

  /**
   * The value of cell (r, c) after starting from `init` and applying the hits
   * in order, each replacing the cell when strictly greater.
   */
  function CellMax(hits: seq<Hit>, r: int, c: int, init: real): (m: real)
    ensures m >= init
    ensures forall i :: 0 <= i < |hits| && InCell(hits[i], r, c) ==> hits[i].value <= m
    ensures m == init || exists i :: 0 <= i < |hits| && InCell(hits[i], r, c) && hits[i].value == m
    decreases |hits|
  {
    if hits == [] then init
    else
      var front := hits[..|hits| - 1];
      var h := hits[|hits| - 1];
      var m := CellMax(front, r, c, init);
      assert forall i :: 0 <= i < |front| ==> front[i] == hits[i];
      if InCell(h, r, c) && h.value > m then h.value else m
  }

  /** A cell no hit reaches keeps its initial value. */
  lemma CellMaxUntouched(hits: seq<Hit>, r: int, c: int, init: real)
    requires forall i :: 0 <= i < |hits| ==> !InCell(hits[i], r, c)
    ensures CellMax(hits, r, c, init) == init
  {
  }

  /** The update rule gives the same cell values in whatever order the hits arrive. */
  lemma CellMaxOrderIndependent(h1: seq<Hit>, h2: seq<Hit>, r: int, c: int, init: real)
    requires multiset(h1) == multiset(h2)
    ensures CellMax(h1, r, c, init) == CellMax(h2, r, c, init)
  {
    var m1, m2 := CellMax(h1, r, c, init), CellMax(h2, r, c, init);
    if m1 != init {
      var i :| 0 <= i < |h1| && InCell(h1[i], r, c) && h1[i].value == m1;
      assert h1[i] in multiset(h2);
      var j :| 0 <= j < |h2| && h2[j] == h1[i];
    }
    if m2 != init {
      var j :| 0 <= j < |h2| && InCell(h2[j], r, c) && h2[j].value == m2;
      assert h2[j] in multiset(h1);
      var i :| 0 <= i < |h1| && h1[i] == h2[j];
    }
  }

  /** Extending the hit list with one more hit: how the cell changes. */
  lemma CellMaxSnoc(hits: seq<Hit>, h: Hit, r: int, c: int, init: real)
    ensures CellMax(hits + [h], r, c, init)
            == if InCell(h, r, c) && h.value > CellMax(hits, r, c, init) then h.value
               else CellMax(hits, r, c, init)
  {
    assert (hits + [h])[..|hits + [h]| - 1] == hits;
  }

  /** One float cell value, possibly NaN, delivered to the cell (row, col). */
  datatype Delivery = Delivery(row: int, col: int, value: Cell)

  predicate Delivers(d: Delivery, r: int, c: int) {
    d.row == r && d.col == c
  }

  /** `np.maximum` on float cells: NaN when either side is NaN, else the larger. */
  function Maximum(a: Cell, b: Cell): (m: Cell)
    ensures m.NaN? <==> a.NaN? || b.NaN?
    ensures m.Num? ==> a.v <= m.v && b.v <= m.v && (m == a || m == b)
  {
    if a.NaN? || b.NaN? then NaN
    else if a.v >= b.v then a else b
  }

  /**
   * The value of cell (r, c) after `np.maximum.at` applies the deliveries in
   * order to a cell starting at `init`. NaN is absorbing: the cell ends NaN
   * exactly when a NaN reached it, and otherwise holds the largest of `init`
   * and the values that reached it.
   */
  function MaximumAt(ds: seq<Delivery>, r: int, c: int, init: real): (m: Cell)
    ensures m.NaN? <==> exists i :: 0 <= i < |ds| && Delivers(ds[i], r, c) && ds[i].value.NaN?
    ensures m.Num? ==> init <= m.v
                       && (forall i :: 0 <= i < |ds| && Delivers(ds[i], r, c) ==>
                             ds[i].value.Num? && ds[i].value.v <= m.v)
                       && (m.v == init || exists i :: 0 <= i < |ds| && Delivers(ds[i], r, c) && ds[i].value == m)
    decreases |ds|
  {
    if ds == [] then Num(init)
    else
      var front := ds[..|ds| - 1];
      var d := ds[|ds| - 1];
      var m := MaximumAt(front, r, c, init);
      assert forall i :: 0 <= i < |front| ==> front[i] == ds[i];
      if Delivers(d, r, c) then Maximum(m, d.value) else m
  }

  /** Extending the deliveries with one more: how the cell changes. */
  lemma MaximumAtSnoc(ds: seq<Delivery>, d: Delivery, r: int, c: int, init: real)
    ensures MaximumAt(ds + [d], r, c, init)
            == if Delivers(d, r, c) then Maximum(MaximumAt(ds, r, c, init), d.value)
               else MaximumAt(ds, r, c, init)
  {
    assert (ds + [d])[..|ds + [d]| - 1] == ds;
  }

  /** `np.min` of a non-empty column. */
  function SeqMin(s: seq<real>): (m: real)
    requires |s| > 0
    ensures forall i :: 0 <= i < |s| ==> m <= s[i]
    ensures exists i :: 0 <= i < |s| && s[i] == m
    decreases |s|
  {
    if |s| == 1 then s[0]
    else
      var rest := SeqMin(s[1..]);
      assert forall i :: 1 <= i < |s| ==> s[i] == s[1..][i - 1];
      if s[0] <= rest then s[0] else rest
  }

  /** `np.max` of a non-empty column. */
  function SeqMax(s: seq<real>): (m: real)
    requires |s| > 0
    ensures forall i :: 0 <= i < |s| ==> s[i] <= m
    ensures exists i :: 0 <= i < |s| && s[i] == m
    decreases |s|
  {
    if |s| == 1 then s[0]
    else
      var rest := SeqMax(s[1..]);
      assert forall i :: 1 <= i < |s| ==> s[i] == s[1..][i - 1];
      if s[0] >= rest then s[0] else rest
  }
}
