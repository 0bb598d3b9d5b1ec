/** Optional values and results of the pricing core, with the errors it can raise. */
module Outcomes {

  /** A nullable value: `double?` in the bond's price memo. */
  datatype Option<T> = None | Some(value: T)

  /** Why a price or delta request fails. */
  datatype Error =
    | EmptyCurve          // the market curve has no points: List.Min() throws on the first interpolation
    | ZeroDiscountFactor  // the solver returned a zero discount factor: the zero rate would be infinite
    | TenorNotFound       // Delta was asked to bump a tenor that is not a key of the market curve

  datatype Result<T> = Success(value: T) | Failure(error: Error)
}
