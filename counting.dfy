/**
 * Counting the occurrences of values in a column, as `Series.value_counts`
 * does: the frequency map has one key per distinct observed value and maps
 * it to the number of positions holding that value.
 */
module Counting {

  /** Number of positions of `s` that hold `v`. */
  function Count<V(==)>(s: seq<V>, v: V): (n: nat)
    ensures n <= |s|
    ensures n > 0 <==> v in s
  {
    if s == [] then 0
    else
      var init := s[..|s| - 1];
      assert s == init + [s[|s| - 1]];
      Count(init, v) + (if s[|s| - 1] == v then 1 else 0)
  }

  /** Appending one element adds one to its own count and nothing to the others. */
  lemma CountSnoc<V>(s: seq<V>, x: V, v: V)
    ensures Count(s + [x], v) == Count(s, v) + (if x == v then 1 else 0)
  {
  }

  /** The positions of `s` that hold `v`. */
  ghost function Positions<V>(s: seq<V>, v: V): set<nat>
  {
    set j: nat | j < |s| && s[j] == v
  }

  /** `Count` is the number of indices `j` with `s[j] == v`. */
  lemma {:induction false} CountIsNumberOfPositions<V>(s: seq<V>, v: V)
    ensures Count(s, v) == |Positions(s, v)|
  {
    if s != [] {
      var n := |s| - 1;
      var init := s[..n];
      CountIsNumberOfPositions(init, v);
      if s[n] == v {
        assert Positions(s, v) == Positions(init, v) + {n};
      } else {
        assert Positions(s, v) == Positions(init, v);
      }
    }
  }

  /**
   * The frequency map of `s`, built in one pass: every value seen bumps its
   * own entry, and a value never seen has no entry at all.
   */
  function ValueCounts<V(==,!new)>(s: seq<V>): (m: map<V, nat>)
    ensures forall v :: v in m <==> v in s
    ensures forall v :: v in m ==> m[v] == Count(s, v) && m[v] >= 1
  {
    if s == [] then map[]
    else
      var init := s[..|s| - 1];
      var x := s[|s| - 1];
      assert s == init + [x];
      var m := ValueCounts(init);
      m[x := (if x in m then m[x] else 0) + 1]
  }

  /** Sum of the counts held in a frequency map. */
  ghost function Total<V>(m: map<V, nat>): nat
    decreases |m|
  {
    if m == map[] then 0
    else
      var k :| k in m;
      assert |m - {k}| < |m| by {
        assert (m - {k}).Keys == m.Keys - {k};
      }
      m[k] + Total(m - {k})
  }

  /** The sum does not depend on which key is taken out first. */
  lemma {:induction false} TotalRemove<V>(m: map<V, nat>, k: V)
    requires k in m
    ensures Total(m) == m[k] + Total(m - {k})
    decreases |m|
  {
    var j :| j in m && Total(m) == m[j] + Total(m - {j});
    if j != k {
      assert (m - {j}).Keys == m.Keys - {j};
      assert (m - {k}).Keys == m.Keys - {k};
      TotalRemove(m - {j}, k);
      TotalRemove(m - {k}, j);
      assert m - {j} - {k} == m - {k} - {j};
    }
  }

  /** Bumping one entry of a frequency map raises its sum by one. */
  lemma {:induction false} TotalBump<V>(m: map<V, nat>, x: V)
    ensures Total(m[x := (if x in m then m[x] else 0) + 1]) == Total(m) + 1
  {
    var c := if x in m then m[x] else 0;
    TotalRemove(m[x := c + 1], x);
    assert m[x := c + 1] - {x} == m - {x};
    if x in m {
      TotalRemove(m, x);
    } else {
      assert m - {x} == m;
    }
  }

  /**
   * Only observed values are keys, so the counts add up to the length of
   * the counted column.
   */
  lemma {:induction false} TotalValueCounts<V(!new)>(s: seq<V>)
    ensures Total(ValueCounts(s)) == |s|
  {
    if s != [] {
      var init, x := s[..|s| - 1], s[|s| - 1];
      var m := ValueCounts(init);
      assert ValueCounts(s) == m[x := (if x in m then m[x] else 0) + 1];
      TotalValueCounts(init);
      TotalBump(m, x);
    }
  }
}
