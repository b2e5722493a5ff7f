/** Result types shared by the model's modules. */
module Wrappers {

  /** A value that may be absent; stands for a C pointer that may be NULL. */
  datatype Option<+T> = None | Some(value: T)

  /** Either a value or an error; stands for a C routine that may fail an
      ASSERT, call ERROR or dereference NULL instead of returning. */
  datatype Result<+R, +E> = Success(value: R) | Failure(error: E)
}
