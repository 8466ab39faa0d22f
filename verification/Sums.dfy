/** Sums over the values of a map. */
module Sums {

  ghost function MapSum<K(!new)>(m: map<K, int>): int
    decreases |m|
  {
    if m == map[] then 0
    else
      var k :| k in m;
      m[k] + MapSum(m - {k})
  }

  /** The sum does not depend on which entry is taken first. */
  lemma {:induction false} MapSumTake<K(!new)>(m: map<K, int>, k: K)
    requires k in m
    ensures MapSum(m) == m[k] + MapSum(m - {k})
    decreases |m|
  {
    var first :| first in m && MapSum(m) == m[first] + MapSum(m - {first});
    if first != k {
      MapSumTake(m - {first}, k);
      MapSumTake(m - {k}, first);
      assert m - {first} - {k} == m - {k} - {first};
    }
  }

  lemma MapSumAdd<K(!new)>(m: map<K, int>, k: K, v: int)
    ensures MapSum(m[k := v]) == MapSum(m) + v - if k in m then m[k] else 0
  {
    MapSumTake(m[k := v], k);
    assert m[k := v] - {k} == m - {k};
    if k in m {
      MapSumTake(m, k);
    } else {
      assert m - {k} == m;
    }
  }

  lemma {:induction false} MapSumRename<K(!new), L(!new)>(m: map<K, int>, w: map<L, int>, name: K -> L)
    requires forall k, k' | k in m && k' in m && k != k' :: name(k) != name(k')
    requires forall k | k in m :: name(k) in w && w[name(k)] == m[k]
    requires forall l | l in w :: exists k | k in m :: name(k) == l
    ensures MapSum(m) == MapSum(w)
    decreases |m|
  {
    if m == map[] {
      assert w == map[];
    } else {
      var k :| k in m;
      MapSumTake(m, k);
      MapSumTake(w, name(k));
      MapSumRename(m - {k}, w - {name(k)}, name);
    }
  }

  lemma {:induction false} MapSumDropZeros<K(!new)>(m: map<K, int>, w: map<K, int>)
    requires forall k | k in w :: k in m && w[k] == m[k]
    requires forall k | k in m && k !in w :: m[k] == 0
    ensures MapSum(m) == MapSum(w)
    decreases |m|
  {
    if m == map[] {
      assert w == map[];
    } else {
      var k :| k in m;
      MapSumTake(m, k);
      if k in w {
        MapSumTake(w, k);
      } else {
        assert w - {k} == w;
      }
      MapSumDropZeros(m - {k}, w - {k});
    }
  }

  /** `after` is `before` with `v` added to the entry of `k`. */
  ghost predicate Raised<K(!new)>(before: map<K, int>, after: map<K, int>, k: K, v: int) {
    && k in before
    && after.Keys == before.Keys
    && forall l | l in before :: after[l] == before[l] + if l == k then v else 0
  }

  lemma MapSumRaise<K(!new)>(before: map<K, int>, after: map<K, int>, k: K, v: int)
    requires Raised(before, after, k, v)
    ensures MapSum(after) == MapSum(before) + v
  {
    assert after == before[k := before[k] + v];
    MapSumAdd(before, k, before[k] + v);
  }
}
