/** Failure outcomes of the point-cloud utilities. The Python code raises numpy or
    torch exceptions; the model returns them as values. */
module Results {

  /** The exceptions the modelled operations can raise. */
  datatype Error =
    /** `np.random.choice(n, k, replace=False)` with `k > n` */
    | SampleExceedsPopulation
    /** a negative row count reaching `np.zeros` or `np.random.choice` */
    | NegativeDimension
    /** colour rows that numpy cannot broadcast onto the point rows */
    | BroadcastMismatch
    /** `T @ p` where the columns of `T` differ from the homogeneous width of `p` */
    | MatmulShapeMismatch
    /** indexing batch element 0 of an empty batch */
    | IndexOutOfRange

  /** A value or the exception that replaced it; usable with `:-`. */
  datatype Result<+T> = Ok(value: T) | Err(error: Error) {

    predicate IsFailure() {
      Err?
    }

    function PropagateFailure<U>(): Result<U>
      requires Err?
    {
      Err(error)
    }

    function Extract(): T
      requires Ok?
    {
      value
    }
  }
}
