/** Option and Result, the failure-carrying values the model returns where the
    Python code returns None or raises. */
module Wrappers {

  datatype Option<+T> = None | Some(value: T)

  /** `Failure` stands for a Python exception escaping the operation; the
      string names the exception class the code would raise. */
  datatype Result<+T> = Success(value: T) | Failure(error: string)
}
