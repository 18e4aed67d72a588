/** Sums over sequences and finite maps, and products, shared by every conservation argument. */
module Sums {
  function SeqSum(xs: seq<nat>): nat {
    if xs == [] then 0 else SeqSum(xs[..|xs| - 1]) + xs[|xs| - 1]
  }

  /** The sum of a map's values; `MapSumSplit` shows that the order of summation is irrelevant. */
  ghost function MapSum<K>(m: map<K, nat>): nat {
    if m == map[] then 0
    else
      assert m.Keys != {};
      var k :| k in m;
      m[k] + MapSum(m - {k})
  }

  lemma {:induction false} MapSumSplit<K>(m: map<K, nat>, k: K)
    requires k in m
    ensures MapSum(m) == m[k] + MapSum(m - {k})
    decreases |m|
  {
    assert m != map[];
    var j :| j in m && MapSum(m) == m[j] + MapSum(m - {j});
    if j != k {
      assert |(m - {j}).Keys| < |m.Keys|;
      assert |(m - {k}).Keys| < |m.Keys|;
      MapSumSplit(m - {j}, k);
      MapSumSplit(m - {k}, j);
      assert m - {j} - {k} == m - {k} - {j};
    }
  }

  /** Changing (or adding) one slot changes the sum by the difference of the slot. */
  lemma MapSumUpdate<K>(m: map<K, nat>, k: K, v: nat)
    ensures MapSum(m[k := v]) == MapSum(m) - (if k in m then m[k] else 0) + v
  {
    MapSumSplit(m[k := v], k);
    if k in m {
      MapSumSplit(m, k);
      assert m[k := v] - {k} == m - {k};
    } else {
      assert m[k := v] - {k} == m;
    }
  }

  lemma SeqSumAppend(xs: seq<nat>, x: nat)
    ensures SeqSum(xs + [x]) == SeqSum(xs) + x
  {
    assert (xs + [x])[..|xs|] == xs;
  }

  /** An exact product; the energies of the original are u128 products. */
  function Product(a: nat, b: nat): nat {
    a * b
  }

  lemma ProductMonotone(a: nat, b: nat, c: nat, d: nat)
    requires a <= c && b <= d
    ensures Product(a, b) <= Product(c, d)
  {
    assert a * b <= c * b;
    assert c * b <= c * d;
  }
}
