/** Failure-carrying values shared by every module: a JavaScript `undefined`/`null`
    becomes `None`, a thrown error on a path the model keeps becomes `Err`. */
module Wrappers {

  datatype Option<+T> = None | Some(value: T) {
    function GetOr(default: T): T {
      match this
      case Some(v) => v
      case None => default
    }
  }

  datatype Result<+T, +E> = Ok(value: T) | Err(error: E)
}
