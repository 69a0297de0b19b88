/** The two return shapes of the model's operations. Option stands for
    std::optional. Result stands for a C++ call that either returns a value
    or throws; its three members let `:-` stop a chain of reads at the first
    error, as an exception would. */
module Wrappers {

  /** None is std::nullopt. */
  datatype Option<+T> = None | Some(value: T)

  /** The value computed, or the error that was thrown instead. */
  datatype Result<+T, +E> = Ok(value: T) | Err(error: E) {

    predicate IsFailure() {
      Err?
    }

    function PropagateFailure<U>(): Result<U, E>
      requires Err?
    {
      Err(error)
    }

    function Extract(): T
      requires Ok?
    {
      value
    }
  }
}

/** The failures an operation can end with. Each one is unrecoverable where
    it is detected and ends the whole operation: there are no partial results. */
module Errors {

  datatype Error =
    /** A query needed exactly one (or at most one) match and got another count. */
    | Cardinality
    /** A value does not have the required literal shape (a UUID without braces). */
    | Format
    /** An add found that the source file is already referenced. */
    | DuplicateReference
    /** A remove found no reference to the source file. */
    | NotFound
    /** Writing the rewritten document back to storage failed. */
    | Persist
}
