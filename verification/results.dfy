/** The exceptions the modelled C++ code can throw, and the result wrapper that
    carries them back to the caller instead of unwinding the stack. */
module Results {

  /** The failures of the model.
      - `InvalidArgument` is the `std::invalid_argument` thrown by the width
        checks of `GaussianRBF::basis` and `GaussianRBF::predict`.
      - `IndexOutOfBounds` is the `std::logic_error` Armadillo's bounds-checked
        element access raises when a row index is not below the row count. */
  datatype Error =
    | InvalidArgument(message: string)
    | IndexOutOfBounds(index: nat)

  /** Either the value an operation returns or the exception it throws. */
  datatype Result<+T> = Ok(value: T) | Err(error: Error)
}
