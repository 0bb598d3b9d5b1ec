# GreekAnalysis pricing core in Dafny

This project models the pricing core of GreekAnalysis, a small fixed-income library. It has three parts:

- **The bond** (`Products/Bond.cs`) builds a cashflow schedule. Coupon dates are walked forward from the
  issue date or backward from maturity, one step of `12 / CouponFrequency` months at a time. Each coupon
  is keyed by its Actual/365 (Fixed) year fraction; payments on or before the evaluation date are dropped,
  and the unit principal is added to the last entry. The bond prices the schedule by discounting it on a
  zero-coupon curve, keeps the first price in a memo, and computes the delta to one market tenor. The
  delta is half the difference between the prices on the curve bumped down and up by one basis point.
- **The market curve** (`Curves/MarketCurve.cs`) holds par rates by tenor. Its bootstrap has three steps:
  - linearly interpolate the par rates on the grid `gap, 2 gap, ..., 50` years, where `gap = 1 / CouponFrequency`;
  - solve one discount factor per grid point, so that a par bond maturing there prices at one;
  - turn each factor into a zero rate.
- **The zero-coupon curve** (`Curves/ZeroCouponCurve.cs`) answers discount-factor queries. It interpolates
  the product rate × time, not the rate itself.

Modules, one per file:

| module | file | what it holds |
|---|---|---|
| `Outcomes` | `outcomes.dfy` | option, result and the three errors the core can raise |
| `Externals` | `externals.dfy` | calendar, power and solver as parameters, each with the property the core relies on |
| `Collections` | `collections.dfy` | the `SortedDictionary<double, double>` operations used: `Add`, `d[k] += v`, `Keys`, `Values`, `Min`, `Max`, `FindIndex` |
| `Segments` | `segments.dfy` | the bracketing search and the straight-line step shared by both interpolations |
| `ZeroCouponCurves` | `zero_coupon_curve.dfy` | `RawInterpolation` and `DiscountFactor` |
| `MarketCurves` | `market_curve.dfy` | `LinearInterpolation`, the fine grid, the par residual, the bootstrap loop, `BuildZeroCouponCurve` |
| `Bonds` | `bond.dfy` | the schedule, the discounted sum, the delta bump and the `Bond` class |

Modelling choices:

- Every `double` is an exact `real`. A date is an integer day number.
- A `SortedDictionary` is the sequence of its entries in ascending key order. `ToSortedDictionary()` is
  the curve's `points` field.
- `Bond` is a class. Its terms and curve are constant fields; the memo `price` is a mutable `Option<real>`.
- The schedule walks, the grid loop, the bootstrap loop, the zero-rate loop, the residual's accumulation
  and the discount loop are methods with loops. Each is proved equal to a function, and the properties
  are proved as lemmas about those functions.
- The interpolations, the grid, the residual and the zero rate are functions.
- Small arithmetic helpers keep the nonlinear steps in lemmas of their own and model no behaviour
  by themselves: `MarketCurves.Product` (sign facts of a product), `ZeroCouponCurves.Discount`
  (`1 / p` of a positive `p`), and lemmas such as `AboveFloor`, `BlendPositive`, `ScaleDown`.
- A thrown exception is a `Failure` result.

## Model

| member | source | states |
|---|---|---|
| `Collections.Keys` | Curves/MarketCurve.cs:31 | the key list has one key per entry, and is strictly increasing for a sorted dictionary |
| `Collections.MinMaxOfIncreasing` | Curves/MarketCurve.cs:89-96 | on ascending keys, `xs.Min()` is the first key and `xs.Max()` the last |
| `Collections.MinIsLeast` | Curves/MarketCurve.cs:89 | `Min()` is an element of the list, and no element is smaller |
| `Collections.MaxIsGreatest` | Products/Bond.cs:118 | `Keys.Max()` is an element of the list, and no element is larger |
| `Collections.FindIndex` | Curves/MarketCurve.cs:99 | `FindIndex(e => x < e)` is the first index whose element exceeds `x`, or -1 when none does |
| `Collections.FindIndexBrackets` | Curves/MarketCurve.cs:99-103 | strictly inside an ascending list, the found index `i` is at least 1 and `xs[i-1] <= x < xs[i]` |
| `Collections.FindIndexAtNode` | Curves/ZeroCouponCurve.cs:46 | queried at an inner node `xs[k]`, the search stops at `k + 1` |
| `Collections.Add` | Products/Bond.cs:81 | `Add` on an absent key keeps the order and adds exactly the new entry (multiset of entries) |
| `Collections.InsertSorted` | Products/Bond.cs:81 | splicing the entry in at its insertion point keeps the keys ascending and adds exactly that entry |
| `Collections.AddAbove` | Products/Bond.cs:81 | a key above every key is new, and `Add` appends its entry |
| `Collections.AddBelow` | Products/Bond.cs:102 | a key below every key is new, and `Add` prepends its entry |
| `Collections.IndexOfKey` | Products/Bond.cs:119 | the lookup behind `dict[key]` finds the position holding that key |
| `Collections.Adjust` | Products/Bond.cs:119 | `dict[key] += delta` keeps every key; it changes the value at `key` by `delta` and no other value |
| `Segments.Bracket` | Curves/MarketCurve.cs:99-103 | the bracketing nodes `xs[i-1], xs[i]` satisfy `xs[0] <= x0 <= x < x1 <= last` |
| `Segments.BracketIsConsecutive` | Curves/MarketCurve.cs:99-103 | the bracket is the pair of consecutive nodes at the first index above `x`; all nodes before it are `<= x`, all from it on `> x` |
| `Segments.BracketAtNode` | Curves/MarketCurve.cs:99-103 | at an inner node the bracket starts at that node |
| `Segments.LerpOnLine` | Curves/MarketCurve.cs:104 | `y0 + (x-x0)(y1-y0)/(x1-x0)` is collinear with the two nodes |
| `Segments.LerpBetween` | Curves/MarketCurve.cs:104 | between the nodes, the interpolated value lies between `y0` and `y1` |
| `Segments.LerpAbove` | Curves/ZeroCouponCurve.cs:51 | between the nodes, raising both ordinates strictly raises the interpolated value |
| `Segments.LerpOfLine` | Curves/MarketCurve.cs:104 | nodes on a straight line are interpolated exactly onto that line |
| `ZeroCouponCurves.RawInterpolation` | Curves/ZeroCouponCurve.cs:33-56 | at or below the first key the result is `ys.First()`; at or above the last key it is `ys.Last()` |
| `ZeroCouponCurves.RawInterpolationInterior` | Curves/ZeroCouponCurve.cs:46-52 | strictly inside, `x * y` is on the line through `(x0, x0 y0)` and `(x1, x1 y1)`, between those products; the division by `x` is defined because keys are positive |
| `ZeroCouponCurves.ProductOnLine` | Curves/ZeroCouponCurve.cs:51-52 | `xy / x` times `x` is the interpolated product, on the product chord |
| `ZeroCouponCurves.RawInterpolationAtNode` | Curves/ZeroCouponCurve.cs:33-56 | at every node `xs[k]` the interpolated rate is exactly `ys[k]` |
| `ZeroCouponCurves.ProductRateAtStart` | Curves/ZeroCouponCurve.cs:51-52 | at `x = x0` the product interpolation gives back `y0` |
| `ZeroCouponCurves.RawInterpolationAboveMinusOne` | Curves/ZeroCouponCurve.cs:33-56 | nodes whose rates are above -1 interpolate to a rate above -1 at every `x` |
| `ZeroCouponCurves.ProductRateAboveMinusOne` | Curves/ZeroCouponCurve.cs:46-52 | inside the nodes, the interpolated product stays above the line `-x`, so `xy / x` stays above -1 |
| `ZeroCouponCurves.RateAboveMinusOne` | Curves/ZeroCouponCurve.cs:25-27 | on a curve whose zero rates are above -1, the rate looked up at any year fraction is above -1, so `1 + r` is a positive base |
| `ZeroCouponCurves.DiscountFactor` | Curves/ZeroCouponCurve.cs:23-31 | the factor is positive, and its product with `pow(1 + r, yearFrac)` is one, where `r` is the interpolated rate; positivity follows from `1 + r > 0` and powers of positive bases being positive |
| `ZeroCouponCurves.DiscountFactorAtNode` | Curves/ZeroCouponCurve.cs:23-31 | at a node the factor is `1 / pow(1 + r_k, t_k)` with that node's own rate |
| `MarketCurves.LinearInterpolation` | Curves/MarketCurve.cs:86-108 | at or below the first tenor the result is `ys.First()`; at or above the last tenor it is `ys.Last()` |
| `MarketCurves.LinearInterpolationInterior` | Curves/MarketCurve.cs:99-104 | strictly inside, the result is on the segment between the bracketing tenors: collinear with them and between their rates |
| `MarketCurves.LinearInterpolationAtNode` | Curves/MarketCurve.cs:86-108 | at every tenor `xs[k]` the interpolated rate is exactly `ys[k]` |
| `MarketCurves.LinearInterpolationBounded` | Curves/MarketCurve.cs:86-108 | the interpolated rate never leaves `[min ys, max ys]` |
| `MarketCurves.LinearInterpolationOfLine` | Curves/MarketCurve.cs:99-104 | rates quoted on a line `a + b * tenor` are reproduced exactly between the first and last tenor |
| `MarketCurves.GridPointClosedForm` | Curves/MarketCurve.cs:33 | after `k` steps of `x += gap`, `x` is `(k + 1) * gap` |
| `MarketCurves.FineGridShape` | Curves/MarketCurve.cs:29-36 | the grid has `50 * CouponFrequency` strictly increasing points from `gap` to exactly 50, all in `(0, 50]` |
| `MarketCurves.FineGridSpacing` | Curves/MarketCurve.cs:33 | consecutive grid points are exactly one gap apart |
| `MarketCurves.GridPointBound` | Curves/MarketCurve.cs:33 | grid point `k` is positive, and at most 50 exactly when `k + 1 <= 50 * CouponFrequency`, so the loop runs once per grid point |
| `MarketCurves.InterpolatedGrid` | Curves/MarketCurve.cs:30-36 | the interpolated curve has exactly the grid's keys, each with the linearly interpolated par rate |
| `MarketCurves.InterpolateOnGrid` | Curves/MarketCurve.cs:29-36 | the `x += gap` loop with `Add` builds exactly the interpolated grid |
| `MarketCurves.InterpolatedGridAt` | Curves/MarketCurve.cs:33-35 | entry `n` is grid point `n` with its interpolated rate |
| `MarketCurves.AddNext` | Curves/MarketCurve.cs:35 | each `Add` of the grid loop is on a new key and appends, giving the next prefix |
| `MarketCurves.CouponRates` | Curves/MarketCurve.cs:40 | there is one coupon rate per grid point |
| `MarketCurves.CouponRateAtGridPoint` | Curves/MarketCurve.cs:40 | `couponRates[k]` is the rate interpolated at grid point `k`, divided by `CouponFrequency` |
| `MarketCurves.CouponSumFactors` | Curves/MarketCurve.cs:47-50 | the accumulated coupon leg is `c` times the sum of the earlier factors |
| `MarketCurves.Square` | Curves/MarketCurve.cs:53 | `(guess - 1)^2` is never negative, and zero exactly when `guess == 1` |
| `MarketCurves.ResidualTerm` | Curves/MarketCurve.cs:44-54 | the residual's loop computes the objective; it is nonnegative, and zero exactly when the par bond prices at one |
| `MarketCurves.GuessOffset` | Curves/MarketCurve.cs:44-54 | the residual is linear in `df`: `guess - 1 == (1 + c)(df - root)` with `root = (1 - c Σ df_j) / (1 + c)` |
| `MarketCurves.ObjectiveAsSquare` | Curves/MarketCurve.cs:44-54 | the objective is the parabola `(1 + c)^2 (df - root)^2` |
| `MarketCurves.ObjectiveZeroIffRoot` | Curves/MarketCurve.cs:44-54 | when `1 + c != 0` the objective is zero exactly at the root |
| `MarketCurves.ClampedRootMinimizes` | Curves/MarketCurve.cs:60-66 | over `df >= 0` the objective is minimised by the root, or by 0 when the root is negative (or by any value when `1 + c == 0`) |
| `MarketCurves.ExactMinimizerExists` | Curves/MarketCurve.cs:60-66 | an exact solver exists, and every exact solver returns nonnegative factors |
| `MarketCurves.Bootstrap` | Curves/MarketCurve.cs:39-70 | one discount factor per coupon rate |
| `MarketCurves.SolveDiscountFactors` | Curves/MarketCurve.cs:39-70 | the loop appends exactly the bootstrap's factors, in grid order |
| `MarketCurves.BootstrapPrefix` | Curves/MarketCurve.cs:41-70 | later rates never change earlier factors: bootstrapping a prefix gives the prefix |
| `MarketCurves.BootstrapStep` | Curves/MarketCurve.cs:41-68 | factor `i` is the solver's answer for rate `i` given exactly the factors `0..i-1` |
| `MarketCurves.BootstrapNonnegative` | Curves/MarketCurve.cs:60-68 | with a solver on the nonnegative reals every factor is nonnegative |
| `MarketCurves.BootstrapAtPar` | Curves/MarketCurve.cs:41-68 | with an exact solver and a nonnegative root, the par bond of grid point `i` prices exactly at one |
| `MarketCurves.ParAtMinimum` | Curves/MarketCurve.cs:44-66 | an exact solve lands on a feasible root |
| `MarketCurves.DiscountFactors` | Curves/MarketCurve.cs:39-70 | the bootstrap gives one factor per grid point |
| `MarketCurves.ZeroRateRoundTrip` | Curves/MarketCurve.cs:79 | compounding the zero rate of a positive factor over its year fraction gives back `1 / df` |
| `MarketCurves.ZeroRateAboveMinusOne` | Curves/MarketCurve.cs:79 | the zero rate `pow(1/df, 1/t) - 1` of a positive factor is above -1 |
| `MarketCurves.FactorsPositive` | Curves/MarketCurve.cs:60-68 | with a solver on the nonnegative reals, factors that are not zero are positive |
| `MarketCurves.ZeroPointsAboveMinusOne` | Curves/MarketCurve.cs:73-83 | positive factors give a zero curve whose rates are all above -1 |
| `MarketCurves.ZeroPoints` | Curves/MarketCurve.cs:73-83 | the zero curve has exactly the grid's keys, each with `pow(1/df, 1/t) - 1` of its own factor |
| `MarketCurves.AddAfterKeys` | Curves/MarketCurve.cs:80 | each `Add` of the zero-rate loop is on a new key and appends |
| `MarketCurves.ZeroRates` | Curves/MarketCurve.cs:73-82 | the zero-rate loop fails on a zero factor and otherwise builds exactly the zero points |
| `MarketCurves.ZeroCurveOfValid` | Curves/MarketCurve.cs:73-83 | a successful bootstrap has exactly the grid's keys, positive year fractions and zero rates above -1, so it can answer discount-factor queries |
| `MarketCurves.BuildZeroCouponCurve` | Curves/MarketCurve.cs:26-84 | the three steps compute the zero curve on the grid; it fails exactly when the curve is empty or a factor is zero; with a nonnegative solver the curve can answer discount-factor queries |
| `MarketCurves.BootstrapRoundTrip` | Curves/MarketCurve.cs:73-83 | at every grid point the zero curve's discount factor is exactly the factor the solver found there |
| `Bonds.GapMonths` | Products/Bond.cs:31-34 | `12 / CouponFrequency` is between 1 and 12 months, the largest whole step with `months * frequency <= 12` |
| `Bonds.ForwardFirst` | Products/Bond.cs:74-77 | the forward walk's first period starts at the issue date and ends at the first coupon date, or at maturity |
| `Bonds.ForwardLast` | Products/Bond.cs:87-91 | the forward walk's last payment is at maturity |
| `Bonds.ForwardBeforeMaturity` | Products/Bond.cs:76-86 | every coupon date the forward loop visits is strictly before maturity |
| `Bonds.ForwardContiguous` | Products/Bond.cs:76-91 | each forward period starts where the one before it is paid, so the maturity entry accrues from the last `prevCashflowDate` |
| `Bonds.ForwardAfter` | Products/Bond.cs:76-86 | all forward payment dates are after any date preceding the first coupon date and maturity |
| `Bonds.ForwardChronological` | Products/Bond.cs:74-91 | forward payment dates strictly increase |
| `Bonds.BackwardBefore` | Products/Bond.cs:97-105 | all backward payment dates precede any date after the starting date and the issue date |
| `Bonds.BackwardChronological` | Products/Bond.cs:95-111 | backward payment dates, listed in date order, strictly increase |
| `Bonds.BackwardIssueEntry` | Products/Bond.cs:106-111 | the earliest backward entry is paid at the issue date and accrues from the last coupon date the loop reached |
| `Bonds.BackwardAfterIssue` | Products/Bond.cs:97-105 | every entry the backward loop emits accrues over a forward interval after the issue date |
| `Bonds.BackwardContiguous` | Products/Bond.cs:97-105 | each backward period starts where the one before it is paid; the last is the first one emitted |
| `Bonds.BackwardStubReversed` | Products/Bond.cs:108-111 | as written, the issue-date entry accrues backwards, from a coupon date after the issue date to the issue date |
| `Bonds.PeriodsChronological` | Products/Bond.cs:72-112 | the schedule's payment dates strictly increase in either direction |
| `Bonds.YearFracMonotone` | Products/Bond.cs:78 | later dates have larger year fractions |
| `Bonds.CouponsMembership` | Products/Bond.cs:78-81 | an entry is a coupon exactly when some period is paid at a positive year fraction, keyed there, with `CouponRate * days / 365`; others are dropped, not zero-filled |
| `Bonds.CouponsAppend` | Products/Bond.cs:78-81 | a later period adds its entry, if any, at the end |
| `Bonds.CouponsPrepend` | Products/Bond.cs:99-102 | an earlier period adds its entry, if any, in front |
| `Bonds.CouponsBelow` | Products/Bond.cs:78-81 | periods paid before a date give coupons keyed below its year fraction |
| `Bonds.CouponsAbove` | Products/Bond.cs:99-102 | periods paid after a date give coupons keyed above its year fraction |
| `Bonds.CouponsSorted` | Products/Bond.cs:74-112 | chronological periods give strictly ascending keys, so no `Add` meets a duplicate key |
| `Bonds.CouponKeysPositive` | Products/Bond.cs:78-81 | every coupon is keyed at a strictly positive year fraction |
| `Bonds.ForwardStep` | Products/Bond.cs:84-85 | one forward step moves `(prev, date)` from the walk to come to the periods done |
| `Bonds.BackwardStep` | Products/Bond.cs:103-104 | one backward step moves `(prev, date)` from the walk to come to the periods done |
| `Bonds.AppendCoupon` | Products/Bond.cs:78-81 | in the forward loop each positive year fraction is a new key and `Add` appends its coupon; a nonpositive one changes nothing |
| `Bonds.PrependCoupon` | Products/Bond.cs:99-102 | in the backward loop each positive year fraction is a new key and `Add` prepends its coupon; a nonpositive one changes nothing |
| `Bonds.PrincipalOnLastEntry` | Products/Bond.cs:116-120 | the principal raises the largest-key entry by one and leaves every other entry as it was; an empty table stays empty |
| `Bonds.CashflowKeysPositive` | Products/Bond.cs:68-123 | every key of the schedule is a strictly positive year fraction |
| `Bonds.DiscountedSumSplit` | Products/Bond.cs:56-63 | the discounted sum over two runs of entries is the sum of their discounted sums |
| `Bonds.DiscountedSumStep` | Products/Bond.cs:58-62 | one more entry adds `cashflow * DiscountFactor(yearFrac)` |
| `Bonds.DiscountedSumSingle` | Products/Bond.cs:56-63 | a single cashflow is worth its amount times its discount factor |
| `Bonds.PriceOf` | Products/Bond.cs:46-66 | a one-entry schedule is worth exactly 0; otherwise the price fails exactly when the bootstrap fails |
| `Bonds.DiscountCashflows` | Products/Bond.cs:56-63 | the `price +=` loop computes `Σ cashflow * DiscountFactor(yearFrac)` in ascending key order |
| `Bonds.BumpOnlyAtTenor` | Products/Bond.cs:133-139 | a bumped copy keeps the tenors and frequency and differs from the curve only at `tenor`, by exactly the shift |
| `Bonds.Spread` | Products/Bond.cs:135-143 | the spread succeeds exactly when both prices do; otherwise it passes on the down price's failure first, then the up price's |
| `Bonds.DeltaOf` | Products/Bond.cs:125-144 | a tenor the curve does not hold fails with `TenorNotFound`, and only such a tenor does; a one-entry schedule has delta 0 |
| `Bonds.DeltaOfBumpedPrices` | Products/Bond.cs:141-143 | when both bumped prices exist, the delta is `(down - up) / 2` |
| `Bonds.Bond.constructor` | Products/Bond.cs:21-29 | the bond holds its terms and the curve at its own coupon frequency, with no price memo; with a frequency in `1..12` and a well-behaved library it satisfies the bond's invariant |
| `Bonds.Bond.ForwardCoupons` | Products/Bond.cs:74-91 | the forward loop builds exactly the coupon table of the forward walk |
| `Bonds.Bond.BackwardCoupons` | Products/Bond.cs:95-111 | the backward loop builds exactly the coupon table of the backward walk |
| `Bonds.Bond.GetCashflows` | Products/Bond.cs:68-123 | the schedule is the coupon table with the principal added to its last entry |
| `Bonds.Bond.PriceWith` | Products/Bond.cs:46-66 | the two-argument price is `PriceOf` the bond's schedule on the given curve, and neither reads nor writes the memo |
| `Bonds.Bond.Price` | Products/Bond.cs:36-44 | the first call prices on the bond's own curve and stores the price; every later call returns the stored price, whatever the evaluation date |
| `Bonds.Bond.Delta` | Products/Bond.cs:125-144 | the delta is `DeltaOf` the bond's schedule and curve, and the bond is left unchanged |

## Left out

- IEEE-754 rounding. Values are exact reals: the grid loop's `x += gap` has no drift, and key
  equality in `ContainsKey` and `Add` is exact.
- Infinity. When the solver returns a zero discount factor, the source computes an infinite zero rate;
  the model returns `Failure(ZeroDiscountFactor)` instead.
- `MarketCurves.ZeroRates`: does not compute a curve holding the infinite rate of a zero factor, because reals have no infinity.
- The Solver Foundation solve (`Curves/MarketCurve.cs:57-69`). It is an abstract function
  `minimize(couponRate, priorFactors)`, assumed to return a nonnegative factor. The exact minimiser is
  characterised in `ClampedRootMinimizes`; the bootstrap does not assume the solver is exact.
- `Math.Pow` with a real exponent. It is an abstract function, assumed positive on a positive base only,
  as `Math.Pow` is. That every base `1 + r` the discount factor raises is positive is proved: zero rates
  of positive factors are above -1, and interpolation keeps them above -1. The zero-rate round trip also
  assumes that raising to `e` and then to `1 / e` gives back the base.
- `DateTime.AddMonths` calendar semantics (month ends, leap years). Dates are day numbers, and adding a
  positive number of months is only assumed to move a date forward (a negative number, backward).
- A coupon frequency outside `1..12`; the bond's methods require `1 <= CouponFrequency <= 12`. In the
  source, frequency 0 divides by zero. A frequency of 13 or more, or of -13 or less, gives a step of
  0 months (C# `/` truncates), so the walk revisits the same date: `cashflows.Add` throws on the
  duplicate key when that date's year fraction is positive, and the loop never ends otherwise. A
  frequency from -1 to -12 walks the wrong way until `AddMonths` throws on leaving the calendar's
  range. For any frequency but 0, a walk whose loop condition is false from the start returns normally.
- An empty market curve throws from `List.Min()` in the source; the model returns `Failure(EmptyCurve)`.
- A missing tenor throws `ArgumentException` in `Delta`; the model returns `Failure(TenorNotFound)`.
  A failed price propagates as the failure of `Price` and `Delta`, where the source propagates the
  exception; a failed first price is not memoised.
- Thread safety of the memoised `price` field.
- The ExcelDna interface (`ExcelInterfaces/BondInterface.cs`) is not part of this model: it only marshals
  arguments.
- The dictionary copies in `Delta` are modelled as values: `Bump` returns a new curve, so aliasing
  between the copies and the bond's curve is not modelled (the copies never share state in the source).
