// Error values and the failure-compatible Result used by every fallible
// step of a least-squares solve; `:-` on a Result plays the part of Rust's
// `?` operator.
module Linalg {

  datatype Option<T> = None | Some(value: T)

  /** The failures a least-squares call can end in. */
  datatype LinalgError =
    | InvalidStride          // the layout query found no row- or column-major view
    | MemoryNotCont          // no contiguous slice of a buffer could be obtained
    | IncompatibleShape      // raised by the solver wrapper for mismatched layouts
    | Lapack(info: int)      // the solver routine itself reported failure
    | SlicePanic             // a slice ran past the end of the right-hand side

  datatype Result<T> = Ok(value: T) | Err(error: LinalgError) {
    predicate IsFailure() { Err? }

    function PropagateFailure<U>(): Result<U>
      requires Err?
    {
      Err(error)
    }

    function Extract(): T
      requires Ok?
    {
      value
    }
  }
}
