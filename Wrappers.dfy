/** The Option and Result datatypes used by the aligner model. */
module Wrappers {

  /** An optional value: `None` stands for an absent input or, in an
      alignment, for a gap. */
  datatype Option<+T> = None | Some(value: T)

  /** The outcome of an operation that may raise an error. */
  datatype Result<+R, +E> = Success(value: R) | Failure(error: E)
}
