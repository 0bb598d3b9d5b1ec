/**
 * The market par-rate curve (tenor in years -> par rate) and the bootstrap that turns it into a
 * zero-coupon curve: interpolate the par rates on a fine grid of coupon dates, solve one discount
 * factor per grid point so that a par bond prices at one, and convert each discount factor into
 * a zero rate.
 */
module MarketCurves {
  import opened Collections
  import opened Outcomes
  import opened Externals
  import opened Segments
  import opened ZeroCouponCurves

  /** The curve and the coupon frequency it is bootstrapped with; `ToSortedDictionary()` is `points`. */
  datatype MarketCurve = MarketCurve(points: SortedDict, couponFrequency: int)

  // ---------------------------------------------------------------------------------------------
  // Linear interpolation of the par rates

  /** Below the first tenor and above the last one the rate is held flat; in between it is linear. */
  function LinearInterpolation(x: real, xs: seq<real>, ys: seq<real>): (y: real)
    requires |xs| == |ys| > 0 && StrictlyIncreasing(xs)
    ensures x <= xs[0] ==> y == ys[0]
    ensures x >= xs[|xs| - 1] ==> y == ys[|ys| - 1]
  {
    MinMaxOfIncreasing(xs);
    if x <= Min(xs) then ys[0]
    else if x >= Max(xs) then ys[|ys| - 1]
    else Lerp(x, Bracket(x, xs, ys))
  }

  /** `(x, y)` is on the segment between the chord's nodes: collinear with them, and between their values. */
  predicate OnChord(x: real, y: real, c: Chord)
  {
    (y - c.y0) * (c.x1 - c.x0) == (x - c.x0) * (c.y1 - c.y0) && Between(y, c.y0, c.y1)
  }

  /**
   * Strictly inside the tenors the result lies on the segment between the bracketing tenors,
   * which are consecutive: `xs[i-1] <= x < xs[i]` with `i` the first index whose tenor exceeds `x`.
   */
  lemma LinearInterpolationInterior(x: real, xs: seq<real>, ys: seq<real>)
    requires |xs| == |ys| > 0 && StrictlyIncreasing(xs)
    requires xs[0] < x < xs[|xs| - 1]
    ensures OnChord(x, LinearInterpolation(x, xs, ys), Bracket(x, xs, ys))
  {
    MinMaxOfIncreasing(xs);
    LerpOnLine(x, Bracket(x, xs, ys));
    LerpBetween(x, Bracket(x, xs, ys));
  }

  /** At every tenor the interpolated rate is that tenor's rate. */
  lemma LinearInterpolationAtNode(xs: seq<real>, ys: seq<real>, k: nat)
    requires |xs| == |ys| > 0 && StrictlyIncreasing(xs)
    requires k < |xs|
    ensures LinearInterpolation(xs[k], xs, ys) == ys[k]
  {
    MinMaxOfIncreasing(xs);
    if 0 < k < |xs| - 1 {
      BracketAtNode(xs, ys, k);
      LerpAtStart(Chord(xs[k], ys[k], xs[k + 1], ys[k + 1]));
    }
  }

  /** The interpolated rate never leaves the range of the quoted rates. */
  lemma LinearInterpolationBounded(x: real, xs: seq<real>, ys: seq<real>)
    requires |xs| == |ys| > 0 && StrictlyIncreasing(xs)
    ensures Min(ys) <= LinearInterpolation(x, xs, ys) <= Max(ys)
  {
    MinMaxOfIncreasing(xs);
    MinIsLeast(ys);
    MaxIsGreatest(ys);
    if xs[0] < x < xs[|xs| - 1] {
      BracketIsConsecutive(x, xs, ys);
      var i := FindIndex(xs, x);
      assert ys[i - 1] in ys && ys[i] in ys;
      LerpBetween(x, Bracket(x, xs, ys));
    } else {
      assert ys[0] in ys && ys[|ys| - 1] in ys;
    }
  }

  /** Rates quoted on a straight line `a + b * tenor` are reproduced exactly between the first and last tenor. */
  lemma LinearInterpolationOfLine(x: real, xs: seq<real>, a: real, b: real)
    requires |xs| > 0 && StrictlyIncreasing(xs)
    requires xs[0] <= x <= xs[|xs| - 1]
    ensures LinearInterpolation(x, xs, Line(xs, a, b)) == LineAt(a, b, x)
  {
    var ys := Line(xs, a, b);
    MinMaxOfIncreasing(xs);
    if xs[0] < x < xs[|xs| - 1] {
      BracketIsConsecutive(x, xs, ys);
      LerpOfLine(x, Bracket(x, xs, ys), a, b);
    }
  }

  /** The values of the line `a + b * x` at the given abscissas. */
  function Line(xs: seq<real>, a: real, b: real): (ys: seq<real>)
    ensures |ys| == |xs|
  {
    seq(|xs|, i requires 0 <= i < |xs| => LineAt(a, b, xs[i]))
  }

  // ---------------------------------------------------------------------------------------------
  // The fine grid of coupon dates

  /** `1.0 / CouponFrequency`: the spacing of the grid in years. */
  function Gap(frequency: int): real
    requires frequency >= 1
  {
    1.0 / frequency as real
  }

  /** The grid the loop `for (x = gap; x <= 50; x += gap)` walks, over exact reals: `gap, 2 gap, ..., 50`. */
  function FineGrid(frequency: int): seq<real>
    requires frequency >= 1
  {
    seq(50 * frequency, k requires 0 <= k < 50 * frequency => GridPoint(k, frequency))
  }

  /** The value of the loop variable `x` after `k` steps of `x += gap`, starting from `gap`. */
  function GridPoint(k: nat, frequency: int): real
    requires frequency >= 1
  {
    if k == 0 then Gap(frequency) else GridPoint(k - 1, frequency) + Gap(frequency)
  }

  /** Over exact reals the accumulated sum is `(k + 1) * gap`. */
  lemma {:induction false} GridPointClosedForm(k: nat, frequency: int)
    requires frequency >= 1
    ensures GridPoint(k, frequency) == (k + 1) as real * Gap(frequency)
  {
    if k > 0 {
      GridPointClosedForm(k - 1, frequency);
    }
  }

  /**
   * The grid has `50 * frequency` ascending points, from `gap` up to exactly 50 years, all of them
   * in `(0, 50]` (the spacing itself is `FineGridSpacing`).
   */
  lemma FineGridShape(frequency: int)
    requires frequency >= 1
    ensures var grid := FineGrid(frequency);
      && |grid| == 50 * frequency
      && StrictlyIncreasing(grid)
      && grid[0] == Gap(frequency)
      && grid[|grid| - 1] == 50.0
      && (forall k :: 0 <= k < |grid| ==> 0.0 < grid[k] <= 50.0)
  {
    var grid := FineGrid(frequency);
    var g := Gap(frequency);
    var f := frequency as real;
    assert g * f == 1.0;
    assert g > 0.0;
    forall i, j | 0 <= i < j < |grid| ensures grid[i] < grid[j] {
      GridPointClosedForm(i, frequency);
      GridPointClosedForm(j, frequency);
      StepUp((i + 1) as real, (j + 1) as real, g);
    }
    forall k | 0 <= k < |grid| ensures 0.0 < grid[k] <= 50.0 {
      GridPointBound(k, frequency);
    }
    GridPointClosedForm(|grid| - 1, frequency);
    assert grid[|grid| - 1] == (50 * frequency) as real * g;
    assert (50 * frequency) as real * g == 50.0 * (f * g);
  }

  /** Consecutive grid points are one gap apart: the grid is `x += gap` from the first gap on. */
  lemma FineGridSpacing(frequency: int, k: nat)
    requires frequency >= 1 && 0 < k < 50 * frequency
    ensures FineGrid(frequency)[k] - FineGrid(frequency)[k - 1] == Gap(frequency)
  {
  }

  lemma StepUp(a: real, b: real, g: real)
    requires a < b && g > 0.0
    ensures a * g < b * g
  {
  }

  /** Point `k` of the grid lies in `(0, 50]` exactly when `k + 1 <= 50 * frequency`. */
  lemma GridPointBound(k: nat, frequency: int)
    requires frequency >= 1
    ensures 0.0 < GridPoint(k, frequency)
    ensures GridPoint(k, frequency) <= 50.0 <==> k + 1 <= 50 * frequency
  {
    GridPointClosedForm(k, frequency);
    var g := Gap(frequency);
    var f := frequency as real;
    var n := (k + 1) as real;
    assert g * f == 1.0 && g > 0.0;
    assert n * g * f == n;
    if n * g <= 50.0 {
      assert n * g * f <= 50.0 * f;
    } else {
      assert n * g * f > 50.0 * f;
    }
  }

  /**
   * The market rates interpolated on the grid (`interpMarketCurve`): exactly the grid's points as
   * keys, each with the linearly interpolated par rate.
   */
  function InterpolatedGrid(curve: MarketCurve): (d: SortedDict)
    requires |curve.points| > 0 && curve.couponFrequency >= 1
    ensures Keys(d) == FineGrid(curve.couponFrequency)
    ensures forall k :: 0 <= k < |d| ==>
      d[k].value == LinearInterpolation(d[k].key, Keys(curve.points), Values(curve.points))
  {
    FineGridShape(curve.couponFrequency);
    var grid := FineGrid(curve.couponFrequency);
    var xs := Keys(curve.points);
    var ys := Values(curve.points);
    var d := seq(|grid|, k requires 0 <= k < |grid| => Entry(grid[k], LinearInterpolation(grid[k], xs, ys)));
    assert Keys(d) == grid;
    d
  }

  /** `couponRates`: each interpolated par rate divided by the coupon frequency. */
  function CouponRates(curve: MarketCurve): (rates: seq<real>)
    requires |curve.points| > 0 && curve.couponFrequency >= 1
    ensures |rates| == 50 * curve.couponFrequency
  {
    var grid := InterpolatedGrid(curve);
    seq(|grid|, k requires 0 <= k < |grid| => grid[k].value / curve.couponFrequency as real)
  }

  /** Each coupon rate is the par rate interpolated at its grid point, divided by the frequency. */
  lemma CouponRateAtGridPoint(curve: MarketCurve, k: nat)
    requires |curve.points| > 0 && curve.couponFrequency >= 1
    requires k < 50 * curve.couponFrequency
    ensures CouponRates(curve)[k]
      == LinearInterpolation(FineGrid(curve.couponFrequency)[k], Keys(curve.points), Values(curve.points))
         / curve.couponFrequency as real
  {
    var d := InterpolatedGrid(curve);
    assert Keys(d)[k] == FineGrid(curve.couponFrequency)[k];
  }

  // ---------------------------------------------------------------------------------------------
  // The par residual minimised for one grid point

  /** `Σ_j c * prior[j]`, accumulated in the order the residual adds the terms. */
  function CouponSum(c: real, prior: seq<real>): real
  {
    if |prior| == 0 then 0.0 else CouponSum(c, prior[..|prior| - 1]) + c * prior[|prior| - 1]
  }

  function Sum(s: seq<real>): real
  {
    if |s| == 0 then 0.0 else Sum(s[..|s| - 1]) + s[|s| - 1]
  }

  /** The coupon leg is the coupon rate times the sum of the earlier discount factors. */
  lemma {:induction false} CouponSumFactors(c: real, prior: seq<real>)
    ensures CouponSum(c, prior) == c * Sum(prior)
  {
    if |prior| > 0 {
      CouponSumFactors(c, prior[..|prior| - 1]);
    }
  }

  /**
   * The price of a par bond maturing at this grid point when its last discount factor is `df`:
   * one coupon per earlier grid point, and coupon plus principal at this one.
   */
  function Guess(c: real, prior: seq<real>, df: real): real
  {
    CouponSum(c, prior) + (1.0 + c) * df
  }

  /** The squared distance of that price from par, which the solver minimises over `df >= 0`. */
  function Objective(c: real, prior: seq<real>, df: real): real
  {
    Square(Guess(c, prior, df) - 1.0)
  }

  /** `(guess - 1) * (guess - 1)`: never negative, and zero only at zero. */
  function Square(u: real): (s: real)
    ensures s >= 0.0
    ensures s == 0.0 <==> u == 0.0
  {
    Product(u, u)
  }

  /** A product of reals, with its sign. */
  function Product(a: real, b: real): (p: real)
    ensures a > 0.0 && b > 0.0 ==> p > 0.0
    ensures a < 0.0 && b < 0.0 ==> p > 0.0
    ensures a == 0.0 || b == 0.0 ==> p == 0.0
    ensures a != 0.0 && b != 0.0 ==> p != 0.0
  {
    a * b
  }

  /**
   * The residual the lambda builds: it accumulates the coupon leg term by term, then squares the
   * distance from par. It is never negative, and zero exactly when the par bond prices at one.
   */
  method ResidualTerm(c: real, prior: seq<real>, df: real) returns (error: real)
    ensures error == Objective(c, prior, df)
    ensures error >= 0.0
    ensures error == 0.0 <==> Guess(c, prior, df) == 1.0
  {
    var guess := 0.0;
    for j := 0 to |prior|
      invariant guess == CouponSum(c, prior[..j])
    {
      assert prior[..j + 1][..j] == prior[..j];
      guess := guess + c * prior[j];
    }
    assert prior[..|prior|] == prior;
    guess := guess + (1.0 + c) * df;
    error := (guess - 1.0) * (guess - 1.0);
  }

  /** The discount factor at which the par bond prices exactly at one. */
  function Root(c: real, prior: seq<real>): real
    requires 1.0 + c != 0.0
  {
    (1.0 - c * Sum(prior)) / (1.0 + c)
  }

  /** The distance from par is `(1 + c)` times the distance of `df` from the root. */
  lemma GuessOffset(c: real, prior: seq<real>, df: real)
    requires 1.0 + c != 0.0
    ensures Guess(c, prior, df) - 1.0 == (1.0 + c) * (df - Root(c, prior))
  {
    CouponSumFactors(c, prior);
    var b := 1.0 + c;
    var r := Root(c, prior);
    assert b * r == 1.0 - c * Sum(prior);
  }

  /** The objective is `(1 + c)^2 (df - root)^2`: a parabola in `df` with its vertex at the root. */
  lemma ObjectiveAsSquare(c: real, prior: seq<real>, df: real)
    requires 1.0 + c != 0.0
    ensures Objective(c, prior, df) == (1.0 + c) * (1.0 + c) * ((df - Root(c, prior)) * (df - Root(c, prior)))
  {
    GuessOffset(c, prior, df);
    var b := 1.0 + c;
    var u := df - Root(c, prior);
    assert (b * u) * (b * u) == b * b * (u * u);
  }

  /** When `1 + c != 0` the objective vanishes exactly at the root. */
  lemma ObjectiveZeroIffRoot(c: real, prior: seq<real>, df: real)
    requires 1.0 + c != 0.0
    ensures Objective(c, prior, df) == 0.0 <==> df == Root(c, prior)
  {
    GuessOffset(c, prior, df);
    var p := Product(1.0 + c, df - Root(c, prior));
  }

  /** `df` is a best nonnegative discount factor for this grid point. */
  ghost predicate IsConstrainedMinimum(df: real, c: real, prior: seq<real>)
  {
    df >= 0.0 && forall e :: e >= 0.0 ==> Objective(c, prior, df) <= Objective(c, prior, e)
  }

  /**
   * The exact solution of one solve: the root when it is nonnegative, otherwise the boundary 0;
   * when `1 + c == 0` the objective does not depend on `df` and the starting value 1 is kept.
   */
  function ClampedRoot(c: real, prior: seq<real>): real
  {
    if 1.0 + c == 0.0 then 1.0
    else if Root(c, prior) >= 0.0 then Root(c, prior)
    else 0.0
  }

  /** The clamped root minimises the objective over the nonnegative reals. */
  lemma ClampedRootMinimizes(c: real, prior: seq<real>)
    ensures IsConstrainedMinimum(ClampedRoot(c, prior), c, prior)
  {
    var d := ClampedRoot(c, prior);
    forall e | e >= 0.0 ensures Objective(c, prior, d) <= Objective(c, prior, e) {
      if 1.0 + c == 0.0 {
        assert Guess(c, prior, d) == Guess(c, prior, e);
      } else if Root(c, prior) >= 0.0 {
        ObjectiveZeroIffRoot(c, prior, d);
      } else {
        var b := 1.0 + c;
        var r := Root(c, prior);
        ObjectiveAsSquare(c, prior, d);
        ObjectiveAsSquare(c, prior, e);
        SquareNonnegative(b);
        SquareGrows(0.0 - r, e - r);
        ScaleUp(b * b, (0.0 - r) * (0.0 - r), (e - r) * (e - r));
      }
    }
  }

  lemma SquareNonnegative(g: real)
    ensures g * g >= 0.0
  {
  }

  lemma SquareGrows(p: real, q: real)
    requires 0.0 < p <= q
    ensures p * p <= q * q
  {
    assert p * p <= p * q;
    assert p * q <= q * q;
  }

  lemma ScaleUp(k: real, p: real, q: real)
    requires k >= 0.0 && p <= q
    ensures k * p <= k * q
  {
  }

  /** The solver returns a best nonnegative discount factor for every objective it is given. */
  ghost predicate ExactMinimizer(minimize: (real, seq<real>) -> real)
  {
    forall c: real, prior: seq<real> :: IsConstrainedMinimum(minimize(c, prior), c, prior)
  }

  /** An exact solver exists (so `ExactMinimizer` is not vacuous), and any exact solver is nonnegative. */
  lemma ExactMinimizerExists()
    ensures ExactMinimizer((c: real, prior: seq<real>) => ClampedRoot(c, prior))
    ensures forall minimize :: ExactMinimizer(minimize) ==> NonnegativeSolver(minimize)
  {
    forall c: real, prior: seq<real> ensures IsConstrainedMinimum(ClampedRoot(c, prior), c, prior) {
      ClampedRootMinimizes(c, prior);
    }
  }

  // ---------------------------------------------------------------------------------------------
  // The bootstrap

  /** `discountFactors` after one solve per coupon rate, each given the factors found before it. */
  function Bootstrap(rates: seq<real>, minimize: (real, seq<real>) -> real): (dfs: seq<real>)
    ensures |dfs| == |rates|
  {
    if |rates| == 0 then []
    else
      var prior := Bootstrap(rates[..|rates| - 1], minimize);
      prior + [minimize(rates[|rates| - 1], prior)]
  }

  /** Solving a prefix of the rates gives the prefix of the factors: later rates never change earlier factors. */
  lemma {:induction false} BootstrapPrefix(rates: seq<real>, minimize: (real, seq<real>) -> real, i: nat)
    requires i <= |rates|
    ensures Bootstrap(rates[..i], minimize) == Bootstrap(rates, minimize)[..i]
    decreases |rates|
  {
    if i < |rates| {
      var shorter := rates[..|rates| - 1];
      assert shorter[..i] == rates[..i];
      BootstrapPrefix(shorter, minimize, i);
    } else {
      assert rates[..i] == rates;
    }
  }

  /** Factor `i` is the solver's answer for rate `i` given exactly the factors `0..i-1`. */
  lemma BootstrapStep(rates: seq<real>, minimize: (real, seq<real>) -> real, i: nat)
    requires i < |rates|
    ensures Bootstrap(rates, minimize)[i] == minimize(rates[i], Bootstrap(rates, minimize)[..i])
  {
    var dfs := Bootstrap(rates, minimize);
    var pre := rates[..i + 1];
    assert dfs[..i + 1] == dfs[..i] + [minimize(rates[i], dfs[..i])] by {
      BootstrapPrefix(rates, minimize, i + 1);
      BootstrapPrefix(rates, minimize, i);
      assert pre[..|pre| - 1] == rates[..i];
    }
    assert dfs[i] == dfs[..i + 1][i];
  }

  /** With a nonnegative solver every factor is nonnegative. */
  lemma BootstrapNonnegative(rates: seq<real>, minimize: (real, seq<real>) -> real, i: nat)
    requires NonnegativeSolver(minimize)
    requires i < |rates|
    ensures Bootstrap(rates, minimize)[i] >= 0.0
  {
    BootstrapStep(rates, minimize, i);
    SolverNonnegative(minimize, rates[i], Bootstrap(rates, minimize)[..i]);
  }

  /**
   * With an exact solver, wherever the root is nonnegative the bootstrapped factor prices the
   * par bond of that grid point exactly at one.
   */
  lemma BootstrapAtPar(rates: seq<real>, minimize: (real, seq<real>) -> real, i: nat)
    requires ExactMinimizer(minimize)
    requires i < |rates| && 1.0 + rates[i] != 0.0
    requires Root(rates[i], Bootstrap(rates, minimize)[..i]) >= 0.0
    ensures Guess(rates[i], Bootstrap(rates, minimize)[..i], Bootstrap(rates, minimize)[i]) == 1.0
  {
    BootstrapStep(rates, minimize, i);
    ParAtMinimum(minimize, rates[i], Bootstrap(rates, minimize)[..i]);
  }

  /** An exact solve lands on the root whenever the root is feasible, so the par bond prices at one. */
  lemma ParAtMinimum(minimize: (real, seq<real>) -> real, c: real, prior: seq<real>)
    requires ExactMinimizer(minimize)
    requires 1.0 + c != 0.0 && Root(c, prior) >= 0.0
    ensures Guess(c, prior, minimize(c, prior)) == 1.0
  {
    var d := minimize(c, prior);
    var r := Root(c, prior);
    assert IsConstrainedMinimum(d, c, prior);
    ObjectiveZeroIffRoot(c, prior, r);
    assert Objective(c, prior, d) <= Objective(c, prior, r);
  }

  /** The factors the bootstrap finds for a curve. */
  function DiscountFactors(curve: MarketCurve, minimize: (real, seq<real>) -> real): (dfs: seq<real>)
    requires |curve.points| > 0 && curve.couponFrequency >= 1
    ensures |dfs| == 50 * curve.couponFrequency
  {
    Bootstrap(CouponRates(curve), minimize)
  }

  // ---------------------------------------------------------------------------------------------
  // From discount factors to zero rates

  /** `Math.Pow(1 / df, 1 / yearFrac) - 1`. */
  function ZeroRate(pow: (real, real) -> real, df: real, yearFrac: real): real
    requires df != 0.0 && yearFrac != 0.0
  {
    pow(1.0 / df, 1.0 / yearFrac) - 1.0
  }

  /** Discounting with the zero rate of a positive factor gives that factor back. */
  lemma ZeroRateRoundTrip(pow: (real, real) -> real, df: real, yearFrac: real)
    requires PowInverse(pow) && df > 0.0 && yearFrac > 0.0
    ensures pow(1.0 + ZeroRate(pow, df, yearFrac), yearFrac) == 1.0 / df
  {
    var a := 1.0 / df;
    var e := 1.0 / yearFrac;
    assert a > 0.0 && e > 0.0;
    assert e * yearFrac == 1.0;
    assert 1.0 + ZeroRate(pow, df, yearFrac) == pow(a, e);
  }

  lemma Reciprocal(df: real)
    requires df > 0.0
    ensures 1.0 / (1.0 / df) == df
  {
  }

  /** `zeroCouponCurve`: each grid point with the zero rate of its factor. */
  function ZeroPoints(grid: seq<real>, dfs: seq<real>, pow: (real, real) -> real): (d: SortedDict)
    requires |grid| == |dfs| && StrictlyIncreasing(grid)
    requires forall k :: 0 <= k < |grid| ==> grid[k] > 0.0
    requires 0.0 !in dfs
    ensures Keys(d) == grid
    ensures forall k :: 0 <= k < |d| ==> d[k].value == ZeroRate(pow, dfs[k], grid[k])
  {
    var d := seq(|grid|, k requires 0 <= k < |grid| => Entry(grid[k], ZeroRate(pow, dfs[k], grid[k])));
    assert Keys(d) == grid;
    d
  }

  /**
   * What `BuildZeroCouponCurve` returns. An empty market curve fails (the first interpolation asks
   * for the minimum of no tenors); a zero discount factor fails (its zero rate would be infinite).
   */
  function ZeroCurveOf(curve: MarketCurve, lib: Library): Result<ZeroCouponCurve>
    requires curve.couponFrequency >= 1
  {
    if |curve.points| == 0 then Failure(EmptyCurve)
    else
      var dfs := DiscountFactors(curve, lib.minimize);
      if 0.0 in dfs then Failure(ZeroDiscountFactor)
      else
        FineGridShape(curve.couponFrequency);
        Success(ZeroCouponCurve(ZeroPoints(FineGrid(curve.couponFrequency), dfs, lib.pow)))
  }

  /**
   * A successful bootstrap yields a curve on the fine grid that can be queried for discount factors:
   * with a nonnegative solver every factor is positive, so every zero rate is above -1.
   */
  lemma ZeroCurveOfValid(curve: MarketCurve, lib: Library)
    requires curve.couponFrequency >= 1 && ZeroCurveOf(curve, lib).Success?
    requires PowPositive(lib.pow) && NonnegativeSolver(lib.minimize)
    ensures Keys(ZeroCurveOf(curve, lib).value.points) == FineGrid(curve.couponFrequency)
    ensures ZeroCouponCurves.Valid(ZeroCurveOf(curve, lib).value)
  {
    var f := curve.couponFrequency;
    FineGridShape(f);
    var grid := FineGrid(f);
    var dfs := DiscountFactors(curve, lib.minimize);
    var zc := ZeroCurveOf(curve, lib).value;
    assert zc.points == ZeroPoints(grid, dfs, lib.pow);
    assert Keys(zc.points)[0] == grid[0];
    FactorsPositive(CouponRates(curve), lib.minimize);
    ZeroPointsAboveMinusOne(grid, dfs, lib.pow);
  }

  /** With a nonnegative solver, factors that are not zero are positive. */
  lemma FactorsPositive(rates: seq<real>, minimize: (real, seq<real>) -> real)
    requires NonnegativeSolver(minimize) && 0.0 !in Bootstrap(rates, minimize)
    ensures forall k :: 0 <= k < |rates| ==> Bootstrap(rates, minimize)[k] > 0.0
  {
    var dfs := Bootstrap(rates, minimize);
    forall k | 0 <= k < |dfs| ensures dfs[k] >= 0.0 {
      BootstrapNonnegative(rates, minimize, k);
    }
    NonzeroIsPositive(dfs);
  }

  lemma NonzeroIsPositive(s: seq<real>)
    requires 0.0 !in s && forall k :: 0 <= k < |s| ==> s[k] >= 0.0
    ensures forall k :: 0 <= k < |s| ==> s[k] > 0.0
  {
    forall k | 0 <= k < |s| ensures s[k] > 0.0 {
      assert s[k] in s;
    }
  }

  /** Positive factors give zero rates above -1. */
  lemma ZeroPointsAboveMinusOne(grid: seq<real>, dfs: seq<real>, pow: (real, real) -> real)
    requires |grid| == |dfs| && StrictlyIncreasing(grid)
    requires forall k :: 0 <= k < |grid| ==> grid[k] > 0.0
    requires forall k :: 0 <= k < |dfs| ==> dfs[k] > 0.0
    requires PowPositive(pow)
    ensures 0.0 !in dfs
    ensures forall k :: 0 <= k < |grid| ==> ZeroPoints(grid, dfs, pow)[k].value > -1.0
  {
    forall k | 0 <= k < |grid| ensures ZeroPoints(grid, dfs, pow)[k].value > -1.0 {
      ZeroRateAboveMinusOne(pow, dfs[k], grid[k]);
    }
  }

  /** The zero rate of a positive factor is above -1. */
  lemma ZeroRateAboveMinusOne(pow: (real, real) -> real, df: real, yearFrac: real)
    requires PowPositive(pow) && df > 0.0 && yearFrac != 0.0
    ensures ZeroRate(pow, df, yearFrac) > -1.0
  {
    assert 1.0 / df > 0.0;
  }

  /**
   * `BuildZeroCouponCurve`: interpolate on the grid, solve one factor per grid point, convert the
   * factors to zero rates. On success the zero curve has exactly the grid's points as keys and can
   * be queried for discount factors.
   */
  method BuildZeroCouponCurve(curve: MarketCurve, lib: Library) returns (r: Result<ZeroCouponCurve>)
    requires curve.couponFrequency >= 1
    ensures r == ZeroCurveOf(curve, lib)
    ensures r.Success? ==> Keys(r.value.points) == FineGrid(curve.couponFrequency)
    ensures r.Success? && PowPositive(lib.pow) && NonnegativeSolver(lib.minimize) ==> ZeroCouponCurves.Valid(r.value)
    ensures r.Failure? <==> |curve.points| == 0 || 0.0 in DiscountFactors(curve, lib.minimize)
  {
    var f := curve.couponFrequency;
    if |curve.points| == 0 {
      return Failure(EmptyCurve);
    }
    FineGridShape(f);
    var interp := InterpolateOnGrid(curve);
    var couponRates := seq(|interp|, k requires 0 <= k < |interp| => interp[k].value / f as real);
    assert couponRates == CouponRates(curve);
    var discountFactors := SolveDiscountFactors(couponRates, lib.minimize);
    var zeroCouponCurve := ZeroRates(Keys(interp), discountFactors, lib.pow);
    if zeroCouponCurve.Failure? {
      return Failure(zeroCouponCurve.error);
    }
    r := Success(ZeroCouponCurve(zeroCouponCurve.value));
    assert PowPositive(lib.pow) && NonnegativeSolver(lib.minimize) ==> ZeroCouponCurves.Valid(r.value) by {
      if PowPositive(lib.pow) && NonnegativeSolver(lib.minimize) {
        ZeroCurveOfValid(curve, lib);
      }
    }
  }

  /** Step 1: the loop `for (x = gap; x <= 50; x += gap)` adding the interpolated rate at every grid point. */
  method InterpolateOnGrid(curve: MarketCurve) returns (interp: SortedDict)
    requires |curve.points| > 0 && curve.couponFrequency >= 1
    ensures interp == InterpolatedGrid(curve)
  {
    var f := curve.couponFrequency;
    ghost var target := InterpolatedGrid(curve);
    var gap := 1.0 / f as real;
    var xs := Keys(curve.points);
    var ys := Values(curve.points);
    interp := [];
    var x := gap;
    assert x == GridPoint(0, f);
    while x <= 50.0
      invariant |interp| <= |target| == 50 * f
      invariant gap == Gap(f) && x == GridPoint(|interp|, f)
      invariant interp == target[..|interp|]
      decreases 50 * f - |interp|
    {
      var n := |interp|;
      GridPointBound(n, f);
      InterpolatedGridAt(curve, n);
      AddNext(target, n, x, LinearInterpolation(x, xs, ys));
      interp := Add(interp, x, LinearInterpolation(x, xs, ys));
      x := x + gap;
    }
    GridPointBound(|interp|, f);
    assert target[..|target|] == target;
  }

  /** Entry `n` of the interpolated grid is grid point `n` with its interpolated rate. */
  lemma InterpolatedGridAt(curve: MarketCurve, n: nat)
    requires |curve.points| > 0 && curve.couponFrequency >= 1
    requires n < 50 * curve.couponFrequency
    ensures var x := GridPoint(n, curve.couponFrequency);
      InterpolatedGrid(curve)[n] == Entry(x, LinearInterpolation(x, Keys(curve.points), Values(curve.points)))
  {
    assert Keys(InterpolatedGrid(curve))[n] == FineGrid(curve.couponFrequency)[n];
  }

  /** Adding entry `n` of a sorted dictionary to its first `n` entries appends it, giving the first `n + 1`. */
  lemma AddNext(d: SortedDict, n: nat, key: real, value: real)
    requires n < |d| && d[n] == Entry(key, value)
    ensures key !in Keys(d[..n])
    ensures Add(d[..n], key, value) == d[..n + 1]
  {
    forall e | e in d[..n] ensures e.key < key {
      var k :| 0 <= k < n && d[..n][k] == e;
    }
    AddAbove(d[..n], key, value);
    assert d[..n + 1] == d[..n] + [d[n]];
  }

  /** A dictionary holding the first keys of an ascending list gets the next one appended. */
  lemma AddAfterKeys(d: SortedDict, ks: seq<real>, key: real, value: real)
    requires StrictlyIncreasing(ks) && |d| < |ks| && ks[|d|] == key
    requires forall k :: 0 <= k < |d| ==> d[k].key == ks[k]
    ensures key !in Keys(d)
    ensures Add(d, key, value) == d + [Entry(key, value)]
  {
    forall e | e in d ensures e.key < key {
      var k :| 0 <= k < |d| && d[k] == e;
    }
    AddAbove(d, key, value);
  }

  /** Step 2: one solve per coupon rate, each appended to `discountFactors`. */
  method SolveDiscountFactors(couponRates: seq<real>, minimize: (real, seq<real>) -> real) returns (discountFactors: seq<real>)
    ensures discountFactors == Bootstrap(couponRates, minimize)
  {
    discountFactors := [];
    for i := 0 to |couponRates|
      invariant discountFactors == Bootstrap(couponRates[..i], minimize)
    {
      assert couponRates[..i + 1][..i] == couponRates[..i];
      var df := minimize(couponRates[i], discountFactors);
      discountFactors := discountFactors + [df];
    }
    assert couponRates[..|couponRates|] == couponRates;
  }

  /** Step 3: the zero rate of every factor, keyed by its grid point; a zero factor fails. */
  method ZeroRates(yearFracs: seq<real>, discountFactors: seq<real>, pow: (real, real) -> real) returns (r: Result<SortedDict>)
    requires |yearFracs| == |discountFactors| && StrictlyIncreasing(yearFracs)
    requires forall k :: 0 <= k < |yearFracs| ==> yearFracs[k] > 0.0
    ensures 0.0 in discountFactors ==> r == Failure(ZeroDiscountFactor)
    ensures 0.0 !in discountFactors ==> r == Success(ZeroPoints(yearFracs, discountFactors, pow))
  {
    var zeroCouponCurve: SortedDict := [];
    for i := 0 to |yearFracs|
      invariant |zeroCouponCurve| == i
      invariant 0.0 !in discountFactors[..i]
      invariant forall k :: 0 <= k < i ==>
        zeroCouponCurve[k] == Entry(yearFracs[k], ZeroRate(pow, discountFactors[k], yearFracs[k]))
    {
      var discountFactor := discountFactors[i];
      var yearFrac := yearFracs[i];
      if discountFactor == 0.0 {
        return Failure(ZeroDiscountFactor);
      }
      var zeroCouponRate := pow(1.0 / discountFactor, 1.0 / yearFrac) - 1.0;
      AddAfterKeys(zeroCouponCurve, yearFracs, yearFrac, zeroCouponRate);
      zeroCouponCurve := Add(zeroCouponCurve, yearFrac, zeroCouponRate);
      assert discountFactors[..i + 1] == discountFactors[..i] + [discountFactor];
    }
    assert discountFactors[..|yearFracs|] == discountFactors;
    assert zeroCouponCurve == ZeroPoints(yearFracs, discountFactors, pow);
    return Success(zeroCouponCurve);
  }

  /**
   * The bootstrap round trip: at every grid point the zero curve's discount factor is exactly the
   * factor the solver found there.
   */
  lemma BootstrapRoundTrip(curve: MarketCurve, lib: Library, k: nat)
    requires Externals.Valid(lib) && PowInverse(lib.pow)
    requires curve.couponFrequency >= 1 && ZeroCurveOf(curve, lib).Success?
    requires k < 50 * curve.couponFrequency
    ensures ZeroCouponCurves.Valid(ZeroCurveOf(curve, lib).value)
    ensures DiscountFactor(ZeroCurveOf(curve, lib).value, lib.pow, FineGrid(curve.couponFrequency)[k])
      == DiscountFactors(curve, lib.minimize)[k]
  {
    var f := curve.couponFrequency;
    FineGridShape(f);
    var dfs := DiscountFactors(curve, lib.minimize);
    var grid := FineGrid(f);
    var zc := ZeroCurveOf(curve, lib).value;
    ZeroCurveOfValid(curve, lib);
    assert 0.0 !in dfs;
    assert zc.points == ZeroPoints(grid, dfs, lib.pow);
    var df := dfs[k];
    var t := grid[k];
    assert zc.points[k].key == t && zc.points[k].value == ZeroRate(lib.pow, df, t) by {
      assert Keys(zc.points)[k] == t;
    }
    FactorsPositive(CouponRates(curve), lib.minimize);
    DiscountFactorAtNode(zc, lib.pow, k);
    ZeroRateRoundTrip(lib.pow, df, t);
    Reciprocal(df);
  }
}
