/** Option and Result values shared by the schema and the chart modules. */
module Wrappers {

  /** An optional value: `undefined`/absent is `None`. */
  datatype Option<+T> = None | Some(value: T)

  /** The outcome of a validation: the parsed value or the reasons it was refused. */
  datatype Result<+R, +E> = Success(value: R) | Failure(error: E)
}
