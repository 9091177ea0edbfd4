/** Wrappers: `Option` stands for JavaScript's `NaN`/`undefined`
    results, `Result` for a thrown error. */
module Wrappers {

  datatype Option<+T> = None | Some(value: T)

  datatype Result<+T, +E> = Success(value: T) | Failure(error: E)
}
