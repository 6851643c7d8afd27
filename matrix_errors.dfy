/** The failures of the matrix type, and the two result shapes its operations return. */
module MatrixErrors {

  /** What a failing operation reports; each one is a `std::runtime_error` in the C++ class. */
  datatype Error =
    | InvalidDimension   // a shape that cannot be built: a count below 1, as for a 0-by-0 matrix
    | IndexOutOfRange    // element access outside the matrix
    | DimensionMismatch  // operands of incompatible shapes
    | NotSquare          // determinant, complements or inverse of a non-square matrix
    | SingularMatrix     // inverse of a matrix whose determinant is 0

  /** The outcome of an operation that computes a value. */
  datatype Result<+T> = Success(value: T) | Failure(error: Error)

  /** The outcome of an operation that only changes state. */
  datatype Outcome = Pass | Fail(error: Error)
}
