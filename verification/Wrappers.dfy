module Wrappers {

  datatype Option<+T> = None | Some(value: T)

  /** Stands for a C# method that either returns or throws. */
  datatype Result<+T> = Success(value: T) | Failure(error: string)
}
