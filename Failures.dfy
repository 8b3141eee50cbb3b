/** The exceptions the modelled operations raise, as values. Every one of them
    is an IllegalArgumentException in the original; the constructor says which
    check raised it. */
module Failures {

  datatype Error =
    | IncompatibleShape          // checkShape: rows or columns differ
    | IncompatibleArgs           // zMult(vector): operand sizes do not fit
    | InnerDimensionsMustAgree   // zMult(matrix): B.rows() != columns of op(A)
    | IncompatibleResultMatrix   // zMult(matrix): C has the wrong shape
    | MatricesMustNotBeIdentical // zMult(matrix): the result aliases an operand
    | NotSupported               // selection view: elements() / reshape(...)

  /** Either the operation completed, or it raised before changing anything. */
  datatype Outcome = Pass | Fail(error: Error)

  /** An optional argument (a Java reference that may be null). */
  datatype Option<+T> = None | Some(value: T)

  /** A returned value, or the exception raised instead. */
  datatype Result<+T> = Success(value: T) | Failure(error: Error)
}
