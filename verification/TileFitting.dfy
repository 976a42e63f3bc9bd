/** The search for the largest tile that fits in memory. */
module TileFitting {
  datatype Verdict = Fits | TooBig | Failed

  /** The check of a tile, which may itself fail. */
  type Check = seq<int> -> Verdict

  datatype Outcome = Failure | Unchanged | Changed

  function DivCeil(n: int, f: int): int
    requires f > 0
  {
    (n + f - 1) / f
  }

  function Midpoint(min: int, max: int): (m: int)
    ensures min + 1 < max ==> min < m < max
  {
    min + (max - min) / 2
  }

  /** A quotient rounded up is the least number whose multiple reaches `n`. */
  lemma DivCeilIsLeast(n: int, f: int, q: int)
    requires f > 0
    ensures DivCeil(n, f) <= q <==> n <= q * f
  {
    var c := DivCeil(n, f);
    assert c * f <= n + f - 1 < c * f + f;
    if c <= q { assert c * f <= q * f; }
    if q < c { assert (q + 1) * f <= c * f; }
  }

  lemma DivCeilFalls(n: int, f: int, g: int)
    requires n >= 0 && 0 < f <= g
    ensures DivCeil(n, g) <= DivCeil(n, f)
  {
    var c := DivCeil(n, f);
    DivCeilIsLeast(n, f, c);
    DivCeilIsLeast(n, f, -1);
    assert c * f <= c * g;
    DivCeilIsLeast(n, g, c);
  }

  /** The factor the search starts from leaves tiles at least as large as the current one. */
  lemma FirstFactor(n: int, size: int)
    requires 2 <= size <= n
    ensures 0 < n / size < n && size <= DivCeil(n, n / size)
  {
    var f := n / size;
    FactorBounds(n, size, f);
    DivCeilIsLeast(n, f, size - 1);
    assert (size - 1) * f == f * size - f;
  }

  lemma TimesGrows(x: int, y: int, f: int)
    requires f >= 0
    ensures x <= y ==> x * f <= y * f
  {}

  lemma FactorBounds(n: int, size: int, f: int)
    requires 2 <= size <= n && f == n / size
    ensures f * size <= n < (f + 1) * size && 0 < f < n
  {
    assert f * size <= n < f * size + size;
    TimesGrows(f, 0, size);
    TimesGrows(2, size, f);
  }

  /** Larger factors leave tiles no larger than the current one. */
  lemma LaterFactors(n: int, size: int, g: int)
    requires 2 <= size <= n && g > n / size
    ensures DivCeil(n, g) <= size
  {
    var f := n / size;
    FactorBounds(n, size, f);
    TimesGrows(f + 1, g, size);
    Commutes(size, g);
    hide DivCeil;
    DivCeilIsLeast(n, g, size);
  }

  lemma Commutes(x: int, y: int)
    ensures x * y == y * x
  {}

  lemma SmallestTile(n: int)
    requires n >= 1
    ensures DivCeil(n, n) == 1
  {
    DivCeilIsLeast(n, n, 1);
    DivCeilIsLeast(n, n, 0);
  }

  ghost predicate Smaller(s: seq<int>, t: seq<int>) {
    |s| == |t| && forall i :: 0 <= i < |s| ==> s[i] <= t[i]
  }

  /** Of two tiles that can be checked, the smaller fits if the larger does. */
  ghost predicate Monotone(check: Check) {
    forall s, t :: Smaller(s, t) && check(t) == Fits && check(s) != Failed ==> check(s) == Fits
  }

  ghost predicate Total(check: Check) {
    forall s :: check(s) != Failed
  }

  /** The tile with the given dimensions at 1. */
  ghost function OnesAt(sizes: seq<int>, dims: seq<nat>): (r: seq<int>)
    ensures |r| == |sizes|
  {
    seq(|sizes|, i requires 0 <= i < |sizes| => if i in dims then 1 else sizes[i])
  }

  ghost predicate ValidTile(order: seq<nat>, original: seq<int>, sizes: seq<int>) {
    |original| == |sizes| && forall d :: d in order ==> d < |sizes| && 1 <= sizes[d] <= original[d]
  }

  /** The tile found at dimension `order[k]`: it fits, the dimensions before are 1 and those after as they were, and it is
      the largest of the quotients that fit. */
  ghost predicate FoundAt(check: Check, order: seq<nat>, original: seq<int>, before: seq<int>, after: seq<int>, k: nat)
    requires ValidTile(order, original, before) && k < |order|
  {
    var d := order[k];
    && |after| == |before| && check(after) == Fits && d < |before|
    && after == OnesAt(before, order[..k])[d := after[d]]
    && before[d] > 1 && d !in order[..k]
    && (exists f :: f > 0 && after[d] == DivCeil(original[d], f))
    && 1 <= after[d] <= before[d]
    && check(OnesAt(before, order[..k])) == TooBig
    && (Monotone(check) && Total(check) ==>
          forall f :: f > 0 && check(after[d := DivCeil(original[d], f)]) == Fits ==> DivCeil(original[d], f) <= after[d])
  }

  lemma OneMore(before: seq<int>, order: seq<nat>, k: nat)
    requires k < |order| && order[k] < |before|
    ensures OnesAt(before, order[..k + 1]) == OnesAt(before, order[..k])[order[k] := 1]
    ensures order[k] in order[..k] ==> OnesAt(before, order[..k])[order[k]] == 1
    ensures order[k] !in order[..k] ==> OnesAt(before, order[..k])[order[k]] == before[order[k]]
  {
    assert order[..k + 1] == order[..k] + [order[k]];
  }

  /** If a larger tile is known not to fit, a tile that fits is smaller in the dimension they differ in. */
  lemma FitsBelow(check: Check, base: seq<int>, d: nat, small: int, large: int)
    requires Monotone(check) && Total(check) && d < |base|
    requires check(base[d := small]) == TooBig && small <= large
    ensures check(base[d := large]) == TooBig
  {
    var s, t := base[d := small], base[d := large];
    assert Smaller(s, t);
  }

  lemma LargestFound(check: Check, base: seq<int>, d: nat, n: int, min: int, max: int, after: seq<int>)
    requires d < |base| && 0 < max && after == base[d := DivCeil(n, max)]
    requires Monotone(check) && Total(check) && d < |base| && n >= 0 && 0 < min && max == min + 1
    requires check(base[d := DivCeil(n, min)]) == TooBig
    ensures forall f :: f > 0 && check(after[d := DivCeil(n, f)]) == Fits ==> DivCeil(n, f) <= DivCeil(n, max)
  {
    forall f | f > 0 && check(after[d := DivCeil(n, f)]) == Fits ensures DivCeil(n, f) <= DivCeil(n, max) {
      assert after[d := DivCeil(n, f)] == base[d := DivCeil(n, f)];
      if f <= min {
        DivCeilFalls(n, f, min);
        FitsBelow(check, base, d, DivCeil(n, min), DivCeil(n, f));
      } else {
        DivCeilFalls(n, max, f);
      }
    }
  }

  /** Enlarges one dimension of a tile that fits when it is 1 and does not when it is as before. */
  method EnlargeDim(
        check: Check, order: seq<nat>, original: seq<int>, sizes: array<int>, ghost before: seq<int>, k: nat,
        size: int)
    returns (r: Outcome)
    requires ValidTile(order, original, before) && k < |order| && order[k] !in order[..k] && order[k] < |before|
    requires size == before[order[k]] > 1
    requires sizes[..] == OnesAt(before, order[..k])[order[k] := 1] && check(sizes[..]) == Fits
    requires check(OnesAt(before, order[..k])) == TooBig
    modifies sizes
    ensures r.Failure? ==> !Total(check)
    ensures r.Failure? || (r.Changed? && FoundAt(check, order, original, before, sizes[..], k))
  {
    var d := order[k];
    assert d in order;
    ghost var base := OnesAt(before, order[..k]);
    var n := original[d];
    var minFactor, maxFactor := n / size, n;
    FirstFactor(n, size);
    SmallestTile(n);
    assert base[d := size] == base;
    if Monotone(check) && Total(check) { FitsBelow(check, base, d, size, DivCeil(n, minFactor)); }
    while maxFactor != minFactor + 1
      invariant n / size <= minFactor < maxFactor <= n && minFactor > 0
      invariant sizes.Length == |before| && sizes[..] == base[d := sizes[d]]
      invariant check(base[d := DivCeil(n, maxFactor)]) == Fits
      invariant Monotone(check) && Total(check) ==> check(base[d := DivCeil(n, minFactor)]) == TooBig
      decreases maxFactor - minFactor
    {
      var midFactor := Midpoint(minFactor, maxFactor);
      sizes[d] := DivCeil(n, midFactor);
      assert sizes[..] == base[d := DivCeil(n, midFactor)];
      var fits := check(sizes[..]);
      if fits == Failed { return Failure; }
      if fits == Fits {
        maxFactor := midFactor;
      } else {
        minFactor := midFactor;
      }
    }
    sizes[d] := DivCeil(n, maxFactor);
    assert sizes[..] == base[d := DivCeil(n, maxFactor)];
    if Monotone(check) && Total(check) { LargestFound(check, base, d, n, minFactor, maxFactor, sizes[..]); }
    LaterFactors(n, size, maxFactor);
    DivCeilIsLeast(n, maxFactor, 0);
    r := Changed;
  }

  /** Looks for the largest tile that fits by setting tiling dimensions to 1, in the given order, until the tile fits, and
      then enlarging the last of them again by a binary search for the smallest factor. */
  method FitTileToMemory(check: Check, order: seq<nat>, original: seq<int>, sizes: array<int>) returns (r: Outcome)
    requires ValidTile(order, original, sizes[..])
    modifies sizes
    ensures r.Unchanged? <==> check(old(sizes[..])) == Fits
    ensures r.Unchanged? ==> sizes[..] == old(sizes[..])
    ensures r.Changed? ==> exists k: nat :: k < |order| && FoundAt(check, order, original, old(sizes[..]), sizes[..], k)
    ensures r.Failure? ==> !Total(check) || check(OnesAt(old(sizes[..]), order)) == TooBig
    ensures Monotone(check) && check(OnesAt(old(sizes[..]), order)) == TooBig ==> r.Failure?
  {
    ghost var before := sizes[..];
    var fits := check(sizes[..]);
    if fits == Failed { return Failure; }
    if fits == Fits {
      if Monotone(check) { OnesFit(check, order, original, before, before); }
      return Unchanged;
    }
    for k := 0 to |order|
      invariant sizes[..] == OnesAt(before, order[..k])
      invariant check(sizes[..]) == TooBig
    {
      var dim := order[k];
      assert dim in order;
      var size := sizes[dim];
      OneMore(before, order, k);
      if size != 1 {
        sizes[dim] := 1;
        fits := check(sizes[..]);
        if fits == Failed { return Failure; }
        if fits == Fits {
          r := EnlargeDim(check, order, original, sizes, before, k, size);
          if r.Changed? && Monotone(check) { OnesFit(check, order, original, before, sizes[..]); }
          return;
        }
      }
    }
    assert order[..|order|] == order;
    r := Failure;
  }

  /** A tile that fits as it is, or was found, leaves no doubt that the smallest one fits. */
  lemma OnesFit(check: Check, order: seq<nat>, original: seq<int>, before: seq<int>, after: seq<int>)
    requires ValidTile(order, original, before) && Monotone(check) && check(after) == Fits && |after| == |before|
    requires forall i :: 0 <= i < |before| ==> if i in order then 1 <= after[i] else after[i] == before[i]
    ensures check(OnesAt(before, order)) != TooBig
  {
    assert Smaller(OnesAt(before, order), after);
  }
}
