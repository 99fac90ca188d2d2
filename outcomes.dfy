/** The checked exception `MatrixError` as a result value. */
module Outcomes {

  /** One variant per message the engine attaches to a `MatrixError`. */
  datatype MatrixError =
    | WrongSize          // "The wrong size matrix": a dimension below 1
    | IncompatibleSizes  // "Incompatible matrix sizes": a binary operation's guard
    | NotSquare          // "Matrix is not square": the determinant's guard

  datatype Result<T> = Ok(value: T) | Err(error: MatrixError)
}
