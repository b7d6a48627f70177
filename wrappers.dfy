/** Option and Result values used for the pipeline's absent values and failing stages. */
module Wrappers {

  datatype Option<+T> = None | Some(value: T)

  /** A stage that either produced a value or raised an exception with the given message. */
  datatype Result<+T> = Ok(value: T) | Failure(message: string)
}
