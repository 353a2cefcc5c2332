/** The Option and Result datatypes shared by the two solvers. */
module Common {

  /** `None` stands for a value the source keeps as `Infinity` before anything was measured. */
  datatype Option<+T> = None | Some(value: T)

  /** A result or the message of the error the source throws. */
  datatype Result<+R> = Success(value: R) | Failure(message: string)
}
