/** Option and Result, used for JavaScript's `undefined` and for the
    TypeErrors the script throws on malformed input. */
module Wrappers {

  datatype Option<+T> = None | Some(value: T)

  datatype Result<+T> = Success(value: T) | Failure(error: string)
}
