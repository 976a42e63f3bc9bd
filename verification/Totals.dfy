/** Sums over finite maps, used for the size accounting of the pool and of the pinned buffers. */
module Totals {

  ghost function Total<K>(m: map<K, nat>): (n: nat)
    decreases |m|
  {
    if m == map[] then 0 else
    var k :| k in m;
    assert (m - {k}).Keys == m.Keys - {k};
    m[k] + Total(m - {k})
  }

  lemma {:induction false} TotalRemove<K>(m: map<K, nat>, k: K)
    requires k in m
    ensures Total(m) == m[k] + Total(m - {k})
    decreases |m|
  {
    var c :| c in m && Total(m) == m[c] + Total(m - {c});
    if c != k {
      assert (m - {c}).Keys == m.Keys - {c};
      assert (m - {k}).Keys == m.Keys - {k};
      TotalRemove(m - {c}, k);
      TotalRemove(m - {k}, c);
      assert m - {c} - {k} == m - {k} - {c};
    }
  }

  lemma TotalAdd<K>(m: map<K, nat>, k: K, n: nat)
    requires k !in m
    ensures Total(m[k := n]) == Total(m) + n
  {
    TotalRemove(m[k := n], k);
    assert m[k := n] - {k} == m;
  }

  /** Entry by entry, `small` is at most `scale` times `big`. */
  lemma {:induction false} TotalScaled<K>(small: map<K, nat>, big: map<K, nat>, scale: nat)
    requires small.Keys == big.Keys
    requires forall k :: k in small ==> small[k] <= scale * big[k]
    ensures Total(small) <= scale * Total(big)
    decreases |small|
  {
    if small == map[] {
      assert big == map[];
    } else {
      var k :| k in small;
      assert (small - {k}).Keys == small.Keys - {k};
      assert (big - {k}).Keys == big.Keys - {k};
      TotalScaled(small - {k}, big - {k}, scale);
      TotalRemove(small, k);
      TotalRemove(big, k);
      Distribute(scale, big[k], Total(big - {k}));
    }
  }

  lemma Distribute(scale: nat, a: nat, b: nat)
    ensures scale * (a + b) == scale * a + scale * b
  {}
}
