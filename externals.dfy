/**
 * The library code the pricing core calls but does not define: calendar arithmetic,
 * real exponentiation and a nonnegative minimizer. Each is a parameter of the model,
 * constrained only by what the core relies on.
 */
module Externals {

  datatype Library = Library(
    /** DateTime.AddMonths on dates counted in days: addMonths(date, months). */
    addMonths: (int, int) -> int,
    /** Math.Pow(base, exponent). */
    pow: (real, real) -> real,
    /**
     * One solve of the bootstrap: given the coupon rate of the grid point and the discount
     * factors already found, the nonnegative discount factor the solver settles on.
     */
    minimize: (real, seq<real>) -> real)

  /** Adding a positive number of months moves a date forward; subtracting moves it back. */
  ghost predicate Advances(addMonths: (int, int) -> int)
  {
    && (forall date: int, months: int :: months >= 1 ==> addMonths(date, months) > date)
    && (forall date: int, months: int :: months <= -1 ==> addMonths(date, months) < date)
  }

  /** Powers of a positive base are positive, so `1 / pow(b, e)` is defined for every `b > 0`. */
  ghost predicate PowPositive(pow: (real, real) -> real)
  {
    forall b: real, e: real :: b > 0.0 ==> pow(b, e) > 0.0
  }

  /** Raising to `e` and then to `t`, with `e * t == 1`, gives back the positive base. */
  ghost predicate PowInverse(pow: (real, real) -> real)
  {
    forall a: real, e: real, t: real :: a > 0.0 && e > 0.0 && e * t == 1.0 ==> pow(pow(a, e), t) == a
  }

  /** The decision variable of every solve is declared on the nonnegative reals. */
  ghost predicate NonnegativeSolver(minimize: (real, seq<real>) -> real)
  {
    forall c: real, prior: seq<real> :: minimize(c, prior) >= 0.0
  }

  lemma SolverNonnegative(minimize: (real, seq<real>) -> real, c: real, prior: seq<real>)
    requires NonnegativeSolver(minimize)
    ensures minimize(c, prior) >= 0.0
  {
  }

  /** What every bond computation assumes of the library. */
  ghost predicate Valid(lib: Library)
  {
    Advances(lib.addMonths) && PowPositive(lib.pow) && NonnegativeSolver(lib.minimize)
  }
}
