/**
 * A Python dict filled by a loop of `d[k] = v` assignments: a later
 * assignment to the same key overwrites an earlier one ("last wins").
 */
module Dicts {

  /** The dict obtained by assigning the pairs of `ps` in order. */
  function Assoc<K, V>(ps: seq<(K, V)>): (m: map<K, V>)
    ensures forall i :: 0 <= i < |ps| ==> ps[i].0 in m
    ensures forall k :: k in m ==> exists i :: 0 <= i < |ps| && ps[i].0 == k
    decreases |ps|
  {
    if ps == [] then map[]
    else Assoc(ps[..|ps| - 1])[ps[|ps| - 1].0 := ps[|ps| - 1].1]
  }

  /** The value of a key is the one of its last assignment. */
  lemma {:induction false} AssocLastWins<K, V>(ps: seq<(K, V)>, i: nat)
    requires i < |ps|
    requires forall j :: i < j < |ps| ==> ps[j].0 != ps[i].0
    ensures Assoc(ps)[ps[i].0] == ps[i].1
    decreases |ps|
  {
    if i < |ps| - 1 {
      var front := ps[..|ps| - 1];
      assert front[i] == ps[i];
      AssocLastWins(front, i);
    }
  }

  /** One more assignment updates the dict at its key. */
  lemma AssocSnoc<K, V>(ps: seq<(K, V)>, p: (K, V))
    ensures Assoc(ps + [p]) == Assoc(ps)[p.0 := p.1]
  {
    assert (ps + [p])[..|ps|] == ps;
  }

  /** Every value of the dict was assigned to its key. */
  lemma {:induction false} AssocValue<K, V>(ps: seq<(K, V)>, k: K)
    requires k in Assoc(ps)
    ensures exists i :: 0 <= i < |ps| && ps[i] == (k, Assoc(ps)[k])
    decreases |ps|
  {
    var n := |ps| - 1;
    if ps[n].0 != k {
      var front := ps[..n];
      AssocValue(front, k);
      var i :| 0 <= i < |front| && front[i] == (k, Assoc(front)[k]);
      assert ps[i] == front[i];
    }
  }

  /** Assigning a key adds it to the dict's keys. */
  lemma KeysUpdate<K, V>(m: map<K, V>, k: K, v: V)
    ensures m[k := v].Keys == m.Keys + {k}
  {
  }

  /** `{k: v for k, v in ps if keep(k, v)}`: the kept pairs assigned in order. */
  function Comprehension<K, V>(ps: seq<(K, V)>, keep: (K, V) -> bool): map<K, V>
    decreases |ps|
  {
    if ps == [] then map[]
    else
      var m := Comprehension(ps[..|ps| - 1], keep);
      var p := ps[|ps| - 1];
      if keep(p.0, p.1) then m[p.0 := p.1] else m
  }

  /** A key is in the comprehension exactly when some kept pair has it. */
  lemma {:induction false} ComprehensionKeys<K, V>(ps: seq<(K, V)>, keep: (K, V) -> bool, k: K)
    ensures k in Comprehension(ps, keep) <==> exists i :: 0 <= i < |ps| && ps[i].0 == k && keep(ps[i].0, ps[i].1)
    decreases |ps|
  {
    if ps != [] {
      var n := |ps| - 1;
      var front := ps[..n];
      ComprehensionKeys(front, keep, k);
      if exists i :: 0 <= i < |ps| && ps[i].0 == k && keep(ps[i].0, ps[i].1) {
        var i :| 0 <= i < |ps| && ps[i].0 == k && keep(ps[i].0, ps[i].1);
        if i < n {
          assert front[i] == ps[i];
        }
      }
      if k in Comprehension(front, keep) {
        var i :| 0 <= i < n && front[i].0 == k && keep(front[i].0, front[i].1);
        assert ps[i] == front[i];
      }
    }
  }

  /** Every value of the comprehension comes from a kept pair with its key. */
  lemma {:induction false} ComprehensionValue<K, V>(ps: seq<(K, V)>, keep: (K, V) -> bool, k: K)
    requires k in Comprehension(ps, keep)
    ensures exists i :: 0 <= i < |ps| && ps[i] == (k, Comprehension(ps, keep)[k]) && keep(k, Comprehension(ps, keep)[k])
    decreases |ps|
  {
    var n := |ps| - 1;
    var front := ps[..n];
    if !(keep(ps[n].0, ps[n].1) && ps[n].0 == k) {
      ComprehensionValue(front, keep, k);
      var i :| 0 <= i < |front| && front[i] == (k, Comprehension(front, keep)[k]) && keep(k, Comprehension(front, keep)[k]);
      assert ps[i] == front[i];
    }
  }

  /** The value of a key is the one of its last kept pair. */
  lemma {:induction false} ComprehensionLastWins<K, V>(ps: seq<(K, V)>, keep: (K, V) -> bool, i: nat)
    requires i < |ps| && keep(ps[i].0, ps[i].1)
    requires forall j :: i < j < |ps| && ps[j].0 == ps[i].0 ==> !keep(ps[j].0, ps[j].1)
    ensures ps[i].0 in Comprehension(ps, keep) && Comprehension(ps, keep)[ps[i].0] == ps[i].1
    decreases |ps|
  {
    var n := |ps| - 1;
    if i < n {
      var front := ps[..n];
      assert front[i] == ps[i];
      forall j | i < j < |front| && front[j].0 == front[i].0
        ensures !keep(front[j].0, front[j].1)
      {
        assert front[j] == ps[j];
      }
      ComprehensionLastWins(front, keep, i);
    }
  }
}
