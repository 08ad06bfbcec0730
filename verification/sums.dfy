/** Sums over finite maps, sequences and integer ranges, with the update
    lemmas the ledgers and aggregation trees need. */
module Sums {

  /** The sum of all values of a finite map. */
  ghost function MapSum<K>(m: map<K, int>): int
    decreases |m|
  {
    if m == map[] then 0
    else
      var k :| k in m;
      assert |m - {k}| < |m| by {
        assert (m - {k}).Keys == m.Keys - {k};
      }
      m[k] + MapSum(m - {k})
  }

  /** The definition of `MapSum` picks some key of a non-empty map. */
  lemma MapSumPick<K>(m: map<K, int>) returns (k: K)
    requires |m| > 0
    ensures k in m && MapSum(m) == m[k] + MapSum(m - {k})
  {
    k :| k in m && MapSum(m) == m[k] + MapSum(m - {k});
  }

  /** Removing any key takes exactly its value out of the sum. */
  lemma {:induction false} MapSumRemove<K>(m: map<K, int>, x: K)
    requires x in m
    ensures MapSum(m) == m[x] + MapSum(m - {x})
    decreases |m|
  {
    assert |m| > 0 by { assert x in m.Keys; }
    var k := MapSumPick(m);
    if k != x {
      var mk := m - {k};
      var mx := m - {x};
      assert mk.Keys == m.Keys - {k};
      assert x in mk && k in mx;
      MapSumRemove(mk, x);
      MapSumRemove(mx, k);
      assert mk - {x} == mx - {k};
    }
  }

  /** The value stored at `k`, or zero when `k` is absent. */
  function Get0<K>(m: map<K, int>, k: K): int {
    if k in m then m[k] else 0
  }

  /** Writing `v` at `k` moves the sum by exactly `v` minus the old value. */
  lemma MapSumUpdate<K>(m: map<K, int>, k: K, v: int)
    ensures MapSum(m[k := v]) == MapSum(m) - Get0(m, k) + v
  {
    var m' := m[k := v];
    MapSumRemove(m', k);
    if k in m {
      MapSumRemove(m, k);
      assert m' - {k} == m - {k};
    } else {
      assert m' - {k} == m;
    }
  }

  /** A map whose values are all zero sums to zero. */
  lemma {:induction false} MapSumZero<K>(m: map<K, int>)
    requires forall k :: k in m ==> m[k] == 0
    ensures MapSum(m) == 0
    decreases |m|
  {
    if m != map[] {
      var x :| x in m;
      MapSumRemove(m, x);
      assert (m - {x}).Keys == m.Keys - {x};
      MapSumZero(m - {x});
    }
  }

  /** Deleting `k` takes its value (if any) out of the sum. */
  lemma MapSumDelete<K>(m: map<K, int>, k: K)
    ensures MapSum(m - {k}) == MapSum(m) - Get0(m, k)
  {
    if k in m {
      MapSumRemove(m, k);
    } else {
      assert m - {k} == m;
    }
  }

  /** The sum of a sequence of integers. */
  function SeqSum(s: seq<int>): int {
    if |s| == 0 then 0 else SeqSum(s[..|s| - 1]) + s[|s| - 1]
  }
}
