/**
 * The outcome of an operation that can fail, and the ways the modelled
 * operations fail.
 */
module Results {

  datatype Error =
    /**
     * Two strands whose real parts agree at both ends of a sub-interval swap
     * their order there: the crossing time `0/0` is undefined.
     */
    | UndefinedCrossingTime
    /** `ValueError("different roots are too close")`: two approximations chose the same root. */
    | RootsTooClose
    /** `sorted(distances)[0]` with no roots to choose from: an `IndexError`. */
    | NoRoots
    /** `F.gen(i)` for a generator the free group does not have (`d > 0` with no vertices). */
    | MissingGenerator

  datatype Result<T> = Ok(value: T) | Fail(error: Error)
}
