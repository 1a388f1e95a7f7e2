/** Failure-carrying results and the error kinds raised by the oracle compiler. */
module Wrappers {

  /** The kinds of failure the system raises. Python raises `ValueError` for all of them
      except `MissingKey` (a `KeyError` from a dictionary read) and `IndexError`. */
  datatype Error =
    | RangeError          // a generated index or value lies outside its declared domain
    | MalformedTable      // a lookup table is incomplete or has out-of-range keys or values
    | MalformedForm       // an affine form whose shape or entries do not match its widths
    | ConfigurationError  // enumeration disabled or too wide, or a non-positive alpha
    | ShapeError          // an empty or ragged dense matrix
    | OverflowError       // a value that does not fit the requested bit width
    | NegativeShift       // a shift by a negative count (a signed width of zero)
    | UnsupportedGate     // a gate name the cost estimator does not know
    | MissingKey          // a dictionary read of an absent key
    | IndexError          // a tuple read past its end
    | MalformedBits       // a bit string that is empty or holds a character other than 0 and 1
    | PartitionError      // an orbital partition that overlaps or does not cover the orbitals

  datatype Result<+T, +E> = Success(value: T) | Failure(error: E) {
    predicate IsFailure() { Failure? }

    function PropagateFailure<U>(): Result<U, E>
      requires Failure?
    {
      Failure(error)
    }

    function Extract(): T
      requires Success?
    {
      value
    }
  }

  /** An optional argument (Python's `None` or a value). */
  datatype Option<+T> = None | Some(value: T)

  /** The outcome of a check that returns nothing when it passes. */
  datatype Outcome<+E> = Pass | Fail(error: E)
}
