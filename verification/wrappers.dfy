/** Option and Result values shared by the command models; a Go `error` is carried as its text. */
module Wrappers {

  datatype Option<+T> = None | Some(value: T)

  datatype Result<+T> = Success(value: T) | Failure(error: string)
}
