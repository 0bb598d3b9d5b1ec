/**
 * The bootstrapped zero-coupon curve (year fraction -> zero rate) and its discount-factor
 * query, which interpolates the rate-times-time product rather than the rate itself.
 */
module ZeroCouponCurves {
  import opened Collections
  import opened Externals
  import opened Segments

  /** The curve is fixed at construction; `ToSortedDictionary()` hands back `points`. */
  datatype ZeroCouponCurve = ZeroCouponCurve(points: SortedDict)

  /**
   * What a discount-factor query needs: at least one point, positive year fractions, and zero rates
   * above -1, so that `1 + r` is a positive base.
   */
  predicate Valid(zc: ZeroCouponCurve)
  {
    && |zc.points| > 0
    && zc.points[0].key > 0.0
    && forall k :: 0 <= k < |zc.points| ==> zc.points[k].value > -1.0
  }

  /** Below the first node and above the last one the rate is held flat. */
  function RawInterpolation(x: real, xs: seq<real>, ys: seq<real>): (y: real)
    requires |xs| == |ys| > 0 && StrictlyIncreasing(xs) && xs[0] > 0.0
    ensures x <= xs[0] ==> y == ys[0]
    ensures x >= xs[|xs| - 1] ==> y == ys[|ys| - 1]
  {
    MinMaxOfIncreasing(xs);
    if x <= Min(xs) then ys[0]
    else if x >= Max(xs) then ys[|ys| - 1]
    else ProductRate(x, Bracket(x, xs, ys))
  }

  /** The interior step: interpolate `x * y` between the nodes' products, then divide by `x`. */
  function ProductRate(x: real, c: Chord): real
    requires 0.0 < c.x0 <= x < c.x1
  {
    Lerp(x, Products(c)) / x
  }

  /** Nodes whose rates are above -1 interpolate to a rate above -1, at any `x`. */
  lemma RawInterpolationAboveMinusOne(x: real, xs: seq<real>, ys: seq<real>)
    requires |xs| == |ys| > 0 && StrictlyIncreasing(xs) && xs[0] > 0.0
    requires forall k :: 0 <= k < |ys| ==> ys[k] > -1.0
    ensures RawInterpolation(x, xs, ys) > -1.0
  {
    MinMaxOfIncreasing(xs);
    if xs[0] < x < xs[|xs| - 1] {
      BracketIsConsecutive(x, xs, ys);
      ProductRateAboveMinusOne(x, Bracket(x, xs, ys));
    }
  }

  /**
   * Between nodes with rates above -1 the interpolated product stays above the line `-x` through
   * `(x0, -x0)` and `(x1, -x1)`, so the rate stays above -1.
   */
  lemma ProductRateAboveMinusOne(x: real, c: Chord)
    requires 0.0 < c.x0 <= x < c.x1 && c.y0 > -1.0 && c.y1 > -1.0
    ensures ProductRate(x, c) > -1.0
  {
    var floor := Chord(c.x0, -c.x0, c.x1, -c.x1);
    var products := Products(c);
    ProductsAboveFloor(c);
    LerpAbove(x, products, floor);
    LerpOfLine(x, floor, 0.0, -1.0);
    var xy := Lerp(x, products);
    assert xy > -x;
    QuotientAboveMinusOne(xy, x);
  }

  /** Rates above -1 at positive nodes give products above the line `-x`. */
  lemma ProductsAboveFloor(c: Chord)
    requires 0.0 < c.x0 < c.x1 && c.y0 > -1.0 && c.y1 > -1.0
    ensures Products(c).y0 > -c.x0
    ensures Products(c).y1 > -c.x1
  {
    var p := Products(c);
    AboveFloor(c.x0, c.y0, p.y0);
    AboveFloor(c.x1, c.y1, p.y1);
  }

  lemma AboveFloor(x: real, y: real, p: real)
    requires x > 0.0 && y > -1.0 && p == x * y
    ensures p > -x
  {
    assert x * (y + 1.0) > 0.0;
  }

  lemma QuotientAboveMinusOne(xy: real, x: real)
    requires x > 0.0 && xy > -x
    ensures xy / x > -1.0
  {
  }

  /** On a valid curve every interpolated zero rate is above -1. */
  lemma RateAboveMinusOne(zc: ZeroCouponCurve, yearFrac: real)
    requires Valid(zc)
    ensures RawInterpolation(yearFrac, Keys(zc.points), Values(zc.points)) > -1.0
  {
    var ys := Values(zc.points);
    assert forall k :: 0 <= k < |ys| ==> ys[k] == zc.points[k].value;
    RawInterpolationAboveMinusOne(yearFrac, Keys(zc.points), ys);
  }

  /** The chord through `(x0, x0 * y0)` and `(x1, x1 * y1)`. */
  function Products(c: Chord): Chord
  {
    Chord(c.x0, c.x0 * c.y0, c.x1, c.x1 * c.y1)
  }

  /**
   * Strictly inside the nodes, `x * y` lies on the straight line through the products
   * `(x0, x0 * y0)` and `(x1, x1 * y1)` of the bracketing nodes, and between those products.
   * The division by `x` is safe: `x` exceeds the first node, which is positive.
   */
  lemma RawInterpolationInterior(x: real, xs: seq<real>, ys: seq<real>)
    requires |xs| == |ys| > 0 && StrictlyIncreasing(xs) && xs[0] > 0.0
    requires xs[0] < x < xs[|xs| - 1]
    ensures OnProductChord(x, RawInterpolation(x, xs, ys), Bracket(x, xs, ys))
  {
    MinMaxOfIncreasing(xs);
    ProductOnLine(x, Bracket(x, xs, ys));
  }

  /**
   * `x * y` is on the straight line through `(x0, x0 * y0)` and `(x1, x1 * y1)`,
   * between those two products.
   */
  predicate OnProductChord(x: real, y: real, c: Chord)
  {
    && (x * y - c.x0 * c.y0) * (c.x1 - c.x0) == (x - c.x0) * (c.x1 * c.y1 - c.x0 * c.y0)
    && Between(x * y, c.x0 * c.y0, c.x1 * c.y1)
  }

  lemma ProductOnLine(x: real, c: Chord)
    requires 0.0 < c.x0 <= x < c.x1
    ensures OnProductChord(x, ProductRate(x, c), c)
  {
    var xy := Lerp(x, Products(c));
    assert x * (xy / x) == xy;
    LerpOnLine(x, Products(c));
    LerpBetween(x, Products(c));
  }

  /** At every node the interpolated rate is the node's own rate. */
  lemma RawInterpolationAtNode(xs: seq<real>, ys: seq<real>, k: nat)
    requires |xs| == |ys| > 0 && StrictlyIncreasing(xs) && xs[0] > 0.0
    requires k < |xs|
    ensures RawInterpolation(xs[k], xs, ys) == ys[k]
  {
    MinMaxOfIncreasing(xs);
    if 0 < k < |xs| - 1 {
      BracketAtNode(xs, ys, k);
      ProductRateAtStart(Chord(xs[k], ys[k], xs[k + 1], ys[k + 1]));
    }
  }

  /** At the chord's first node the product interpolation gives back that node's rate. */
  lemma ProductRateAtStart(c: Chord)
    requires 0.0 < c.x0 < c.x1
    ensures ProductRate(c.x0, c) == c.y0
  {
    LerpAtStart(Products(c));
    assert (c.x0 * c.y0) / c.x0 == c.y0;
  }

  /**
   * `1 / pow(1 + r, yearFrac)`, with `r` the rate-times-time interpolated zero rate at `yearFrac`:
   * a positive number whose product with that power is one.
   */
  function DiscountFactor(zc: ZeroCouponCurve, pow: (real, real) -> real, yearFrac: real): (df: real)
    requires Valid(zc) && PowPositive(pow)
    ensures df > 0.0
    ensures df * pow(1.0 + RawInterpolation(yearFrac, Keys(zc.points), Values(zc.points)), yearFrac) == 1.0
  {
    RateAboveMinusOne(zc, yearFrac);
    Discount(pow(1.0 + RawInterpolation(yearFrac, Keys(zc.points), Values(zc.points)), yearFrac))
  }

  /** `1 / p` for a positive compounding factor `p`: positive, and its product with `p` is one. */
  function Discount(p: real): (df: real)
    requires p > 0.0
    ensures df > 0.0 && df * p == 1.0
  {
    1.0 / p
  }

  /** At a node of the curve the discount factor compounds exactly that node's zero rate. */
  lemma DiscountFactorAtNode(zc: ZeroCouponCurve, pow: (real, real) -> real, k: nat)
    requires Valid(zc) && PowPositive(pow)
    requires k < |zc.points|
    ensures DiscountFactor(zc, pow, zc.points[k].key) == 1.0 / pow(1.0 + zc.points[k].value, zc.points[k].key)
  {
    var t := zc.points[k].key;
    assert RawInterpolation(t, Keys(zc.points), Values(zc.points)) == zc.points[k].value by {
      assert Keys(zc.points)[k] == t && Values(zc.points)[k] == zc.points[k].value;
      RawInterpolationAtNode(Keys(zc.points), Values(zc.points), k);
    }
  }
}
