/**
 * The two scales the component builds once the data is loaded: a threshold
 * colour classifier with fixed thresholds over a five-colour diverging
 * palette, and a linear extrusion mapper from the population extent onto
 * `[0, maxExtrudeHeight]`. Also the boundary list sent to the legend.
 */
module Scales {
  import opened Extents

  type Color = string

  /** The fixed change-ratio thresholds of the colour classifier. */
  const Thresholds: seq<real> := [-0.10, -0.03, 0.03, 0.10]

  /** `schemePiYG[5]`, from pink (shrinking) through grey to green (growing). */
  const Palette: seq<Color> := ["#d01c8b", "#f1b6da", "#f7f7f7", "#b8e186", "#4dac26"]

  /** Non-decreasing order, the precondition of a bisection. */
  predicate Sorted(a: seq<real>)
  {
    forall i, j :: 0 <= i < j < |a| ==> a[i] <= a[j]
  }

  /** The number of entries of `a` that are at most `v`. */
  function CountAtMost(a: seq<real>, v: real): (n: nat)
    ensures n <= |a|
  {
    if |a| == 0 then 0 else (if a[0] <= v then 1 else 0) + CountAtMost(a[1..], v)
  }

  /**
   * In a sorted list, a split point with every entry before it at most `v`
   * and every entry from it on above `v` is the number of entries at most `v`.
   */
  lemma {:induction false} CountAtMostSplit(a: seq<real>, k: nat, v: real)
    requires Sorted(a) && k <= |a|
    requires forall i :: 0 <= i < k ==> a[i] <= v
    requires forall i :: k <= i < |a| ==> v < a[i]
    ensures CountAtMost(a, v) == k
    decreases |a|
  {
    if |a| > 0 {
      assert Sorted(a[1..]);
      if k > 0 {
        CountAtMostSplit(a[1..], k - 1, v);
      } else {
        CountAtMostSplit(a[1..], 0, v);
      }
    }
  }

  /** Counting the entries at most `v` is monotone in `v`. */
  lemma {:induction false} CountAtMostMonotone(a: seq<real>, v: real, w: real)
    requires v <= w
    ensures CountAtMost(a, v) <= CountAtMost(a, w)
    decreases |a|
  {
    if |a| > 0 {
      CountAtMostMonotone(a[1..], v, w);
    }
  }

  /**
   * d3's `bisectRight`: a binary search for the first entry above `x`, which
   * in a sorted list is the number of entries at most `x`.
   */
  method BisectRight(a: seq<real>, x: real) returns (lo: nat)
    requires Sorted(a)
    ensures lo <= |a|
    ensures forall i :: 0 <= i < lo ==> a[i] <= x
    ensures forall i :: lo <= i < |a| ==> x < a[i]
    ensures lo == CountAtMost(a, x)
  {
    lo := 0;
    var hi := |a|;
    while lo < hi
      invariant 0 <= lo <= hi <= |a|
      invariant forall i :: 0 <= i < lo ==> a[i] <= x
      invariant forall i :: hi <= i < |a| ==> x < a[i]
      decreases hi - lo
    {
      var mid := (lo + hi) / 2;
      if x < a[mid] {
        hi := mid;
      } else {
        lo := mid + 1;
      }
    }
    CountAtMostSplit(a, lo, x);
  }

  /** The palette index `scaleThreshold` picks for a change value. */
  function Bucket(v: real): (b: nat)
    ensures b < |Palette|
  {
    CountAtMost(Thresholds, v)
  }

  /** The colour classifier. */
  function ColorOf(v: real): (c: Color)
    ensures c in Palette
    ensures c == Palette[Bucket(v)]
  {
    Palette[Bucket(v)]
  }

  /** The bucket is monotone: a larger change never gets a lower bucket. */
  lemma BucketMonotone(v: real, w: real)
    requires v <= w
    ensures Bucket(v) <= Bucket(w)
  {
    CountAtMostMonotone(Thresholds, v, w);
  }

  /**
   * The bucket of `v` is `i` exactly when `v` lies in the `i`-th half-open
   * interval cut by the thresholds; in particular a value equal to a
   * threshold goes to the upper bucket.
   */
  lemma BucketInterval(i: nat, v: real)
    requires i < |Palette|
    ensures Bucket(v) == i <==>
      (i == 0 || Thresholds[i - 1] <= v) && (i == |Thresholds| || v < Thresholds[i])
  {
    assert Sorted(Thresholds);
    var b := Bucket(v);
    BucketSplit(v);
    if (i == 0 || Thresholds[i - 1] <= v) && (i == |Thresholds| || v < Thresholds[i]) {
      CountAtMostSplit(Thresholds, i, v);
    }
  }

  /** The thresholds below the bucket index are at most `v`, the others above it. */
  lemma BucketSplit(v: real)
    ensures forall i :: 0 <= i < Bucket(v) ==> Thresholds[i] <= v
    ensures forall i :: Bucket(v) <= i < |Thresholds| ==> v < Thresholds[i]
  {
    assert Sorted(Thresholds);
    var k := if v < -0.10 then 0 else if v < -0.03 then 1 else if v < 0.03 then 2 else if v < 0.10 then 3 else 4;
    CountAtMostSplit(Thresholds, k, v);
  }

  /**
   * The boundaries sent to the legend: the smallest change, the thresholds,
   * and the largest change; one more than there are colours.
   */
  function LegendBoundaries(delta: Interval): (b: seq<real>)
    ensures |b| == |Palette| + 1
    ensures b[0] == delta.lo && b[|b| - 1] == delta.hi
    ensures b[1..|b| - 1] == Thresholds
  {
    [delta.lo] + Thresholds + [delta.hi]
  }

  /**
   * Every value in the half-open interval between consecutive boundaries is
   * classified to the palette colour at the same position.
   */
  lemma LegendIntervalsClassify(delta: Interval, i: nat, v: real)
    requires i < |Palette|
    requires LegendBoundaries(delta)[i] <= v < LegendBoundaries(delta)[i + 1]
    ensures Bucket(v) == i && ColorOf(v) == Palette[i]
  {
    var b := LegendBoundaries(delta);
    if i > 0 {
      assert b[i] == Thresholds[i - 1];
    }
    if i < |Thresholds| {
      assert b[i + 1] == Thresholds[i];
    }
    BucketInterval(i, v);
  }

  /**
   * `scaleLinear().domain([lo, hi]).range([0, maxHeight])`: the population's
   * position in the domain as a fraction of the height limit. A degenerate
   * domain maps everything to the bottom of the range, as d3-scale 2's
   * `deinterpolateLinear` does.
   */
  function ExtrudeHeight(domain: Interval, maxHeight: real, pop: real): (h: real)
    ensures domain.lo != domain.hi ==> h * (domain.hi - domain.lo) == maxHeight * (pop - domain.lo)
    ensures domain.lo == domain.hi ==> h == 0.0
    ensures domain.lo <= pop <= domain.hi && 0.0 <= maxHeight ==> 0.0 <= h <= maxHeight
  {
    if domain.lo == domain.hi then 0.0
    else
      LinearFacts(maxHeight, domain.lo, domain.hi, pop);
      maxHeight * ((pop - domain.lo) / (domain.hi - domain.lo))
  }

  /** The arithmetic behind the linear scale, apart from the scale itself. */
  lemma LinearFacts(m: real, lo: real, hi: real, pop: real)
    requires lo != hi
    ensures m * ((pop - lo) / (hi - lo)) * (hi - lo) == m * (pop - lo)
    ensures lo <= pop <= hi && 0.0 <= m ==> 0.0 <= m * ((pop - lo) / (hi - lo)) <= m
  {
    var d := hi - lo;
    var t := (pop - lo) / d;
    DivMul(pop - lo, d);
    MulAssoc(m, t, d);
    if lo <= pop <= hi && 0.0 <= m {
      FractionInUnit(pop - lo, d);
      MulMonotone(m, 0.0, t);
      MulMonotone(m, t, 1.0);
    }
  }

  /** The minimum population is flat and the maximum reaches the height limit. */
  lemma ExtrudeHeightEndpoints(domain: Interval, maxHeight: real)
    requires domain.lo < domain.hi
    ensures ExtrudeHeight(domain, maxHeight, domain.lo) == 0.0
    ensures ExtrudeHeight(domain, maxHeight, domain.hi) == maxHeight
  {
    var d := domain.hi - domain.lo;
    var bottom, top := ExtrudeHeight(domain, maxHeight, domain.lo), ExtrudeHeight(domain, maxHeight, domain.hi);
    SolveProduct(bottom, d, maxHeight, domain.lo - domain.lo, 0.0);
    SolveProduct(top, d, maxHeight, domain.hi - domain.lo, maxHeight);
  }

  /** `h * d == m * a` pins `h` down when `a` is `0` or `d`. */
  lemma SolveProduct(h: real, d: real, m: real, a: real, expected: real)
    requires 0.0 < d && h * d == m * a
    requires (a == 0.0 && expected == 0.0) || (a == d && expected == m)
    ensures h == expected
  {
    assert h * d == expected * d;
    MulCancel(h, expected, d);
    MulCancel(expected, h, d);
  }

  /** Two solutions of `h * d == m * a` are ordered like their `a`s. */
  lemma ProductsOrdered(hp: real, hq: real, d: real, m: real, ap: real, aq: real)
    requires 0.0 < d && 0.0 <= m && ap <= aq
    requires hp * d == m * ap && hq * d == m * aq
    ensures hp <= hq
  {
    MulMonotone(m, ap, aq);
    MulCancel(hp, hq, d);
  }

  lemma DivMul(a: real, d: real)
    requires d != 0.0
    ensures a / d * d == a
  {
  }

  lemma DivSelf(d: real)
    requires d != 0.0
    ensures d / d == 1.0
  {
  }

  lemma MulAssoc(a: real, b: real, c: real)
    ensures a * b * c == a * (b * c)
  {
  }

  /** A quotient `a / d` with `0 <= a <= d` lies in `[0, 1]`. */
  lemma FractionInUnit(a: real, d: real)
    requires 0.0 <= a <= d && 0.0 < d
    ensures 0.0 <= a / d <= 1.0
  {
    DivMonotone(0.0, a, d);
    DivMonotone(a, d, d);
    DivSelf(d);
  }

  /** Dividing by a positive number keeps the order. */
  lemma DivMonotone(a: real, b: real, d: real)
    requires a <= b && 0.0 < d
    ensures a / d <= b / d
  {
    DivMul(a, d);
    DivMul(b, d);
    MulCancel(a / d, b / d, d);
  }

  /** Multiplying by a positive number reflects the order. */
  lemma MulCancel(x: real, y: real, d: real)
    requires x * d <= y * d && 0.0 < d
    ensures x <= y
  {
    if y < x {
      MulStrict(y, x, d);
    }
  }

  lemma MulStrict(x: real, y: real, d: real)
    requires x < y && 0.0 < d
    ensures x * d < y * d
  {
    assert y * d - x * d == (y - x) * d;
  }

  lemma MulMonotone(m: real, a: real, b: real)
    requires 0.0 <= m && a <= b
    ensures m * a <= m * b
  {
    assert m * b - m * a == m * (b - a);
  }

  /** Heights grow with the population when the height limit is non-negative. */
  lemma ExtrudeHeightMonotone(domain: Interval, maxHeight: real, p: real, q: real)
    requires domain.lo <= domain.hi && 0.0 <= maxHeight && p <= q
    ensures ExtrudeHeight(domain, maxHeight, p) <= ExtrudeHeight(domain, maxHeight, q)
  {
    if domain.lo < domain.hi {
      var d := domain.hi - domain.lo;
      var hp, hq := ExtrudeHeight(domain, maxHeight, p), ExtrudeHeight(domain, maxHeight, q);
      ProductsOrdered(hp, hq, d, maxHeight, p - domain.lo, q - domain.lo);
    }
  }

  /** Scaling the height limit by `k` scales every height by `k`. */
  lemma ExtrudeHeightScales(domain: Interval, maxHeight: real, k: real, pop: real)
    ensures ExtrudeHeight(domain, k * maxHeight, pop) == k * ExtrudeHeight(domain, maxHeight, pop)
  {
  }
}
