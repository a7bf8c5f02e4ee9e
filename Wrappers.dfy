/** Option and Result, the failure-carrying values used across the model. */
module Wrappers {

  /** A value that may be missing; pandas' NaN in a numeric column is `None`. */
  datatype Option<+T> = None | Some(value: T)

  /** The error a step of the analysis can raise. */
  datatype Error =
    /** `x[1]` (or `x[0]`) indexed a group with fewer than two values. */
    | TooFewValues
    /** A column read from a frame that does not have it: pandas' `KeyError`. */
    | MissingColumn

  /** The outcome of a step that can fail. */
  datatype Result<+T> = Success(value: T) | Failure(error: Error)
}
