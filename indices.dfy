/**
 * Increasing lists of selected positions: the index arrays numpy builds with
 * `np.where` over one axis (a filter that keeps input order) and over two
 * axes (row-major order).
 */
module Indices {

  /** The positions `i < n` with `p(i)`, in increasing order. */
  function Where(n: nat, p: nat -> bool): (r: seq<nat>)
    ensures forall k: nat :: k in r <==> k < n && p(k)
    ensures forall i :: 0 <= i < |r| ==> r[i] < n
    ensures forall i, j :: 0 <= i < j < |r| ==> r[i] < r[j]
    decreases n
  {
    if n == 0 then []
    else
      var front := Where(n - 1, p);
      front + (if p(n - 1) then [n - 1] else [])
  }

  /** `s[idx]`: the elements of `s` at the listed positions. */
  function Pick<T>(s: seq<T>, idx: seq<nat>): (r: seq<T>)
    requires forall i :: 0 <= i < |idx| ==> idx[i] < |s|
    ensures |r| == |idx| && forall i :: 0 <= i < |idx| ==> r[i] == s[idx[i]]
  {
    seq(|idx|, i requires 0 <= i < |idx| => s[idx[i]])
  }

  /** Row-major order on (row, column) cells. */
  predicate RowMajorBefore(a: (nat, nat), b: (nat, nat)) {
    a.0 < b.0 || (a.0 == b.0 && a.1 < b.1)
  }

  /** The cells (row, c) with `c < cols` and `p(row, c)`, by increasing column. */
  function RowWhere(row: nat, cols: nat, p: (nat, nat) -> bool): (r: seq<(nat, nat)>)
    ensures forall q :: q in r <==> q.0 == row && q.1 < cols && p(q.0, q.1)
    ensures forall i, j :: 0 <= i < j < |r| ==> r[i].0 == row && RowMajorBefore(r[i], r[j])
    decreases cols
  {
    if cols == 0 then []
    else RowWhere(row, cols - 1, p) + (if p(row, cols - 1) then [(row, cols - 1)] else [])
  }

  /** The cells of a `rows` x `cols` grid with `p`, in row-major order. */
  function GridWhere(rows: nat, cols: nat, p: (nat, nat) -> bool): (r: seq<(nat, nat)>)
    ensures forall q :: q in r <==> q.0 < rows && q.1 < cols && p(q.0, q.1)
    ensures forall i, j :: 0 <= i < j < |r| ==> RowMajorBefore(r[i], r[j])
    decreases rows
  {
    if rows == 0 then []
    else
      var front := GridWhere(rows - 1, cols, p);
      var last := RowWhere(rows - 1, cols, p);
      assert forall i :: 0 <= i < |front| ==> front[i].0 < rows - 1;
      front + last
  }

  /** Predicates that agree on the row select the same cells. */
  lemma {:induction false} RowWhereExt(row: nat, cols: nat, p: (nat, nat) -> bool, q: (nat, nat) -> bool)
    requires forall c: nat :: c < cols ==> p(row, c) == q(row, c)
    ensures RowWhere(row, cols, p) == RowWhere(row, cols, q)
    decreases cols
  {
    if cols > 0 {
      RowWhereExt(row, cols - 1, p, q);
      assert p(row, cols - 1) == q(row, cols - 1);
    }
  }

  /** Predicates that agree on the grid select the same cells. */
  lemma {:induction false} GridWhereExt(rows: nat, cols: nat, p: (nat, nat) -> bool, q: (nat, nat) -> bool)
    requires forall r: nat, c: nat :: r < rows && c < cols ==> p(r, c) == q(r, c)
    ensures GridWhere(rows, cols, p) == GridWhere(rows, cols, q)
    decreases rows
  {
    if rows > 0 {
      GridWhereExt(rows - 1, cols, p, q);
      RowWhereExt(rows - 1, cols, p, q);
      assert GridWhere(rows, cols, p) == GridWhere(rows - 1, cols, p) + RowWhere(rows - 1, cols, p);
      assert GridWhere(rows, cols, q) == GridWhere(rows - 1, cols, q) + RowWhere(rows - 1, cols, q);
    }
  }

  /** No element occurs twice. */
  predicate Distinct<T(==)>(s: seq<T>) {
    forall i, j :: 0 <= i < j < |s| ==> s[i] != s[j]
  }

  /** The number of distinct elements of a repeat-free sequence is its length. */
  lemma {:induction false} DistinctCardinality<T>(s: seq<T>)
    requires Distinct(s)
    ensures |set x | x in s| == |s|
  {
    if s != [] {
      var front := s[..|s| - 1];
      assert Distinct(front);
      DistinctCardinality(front);
      var last := s[|s| - 1];
      assert last !in front;
      assert (set x | x in s) == (set x | x in front) + {last};
    }
  }
}
