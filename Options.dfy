/** Two plain wrappers: an optional value (JavaScript's `undefined`/`null`
    or an omitted argument) and a value-or-error result (a thrown `Error`). */
module Options {

  datatype Option<+T> = None | Some(value: T) {
    function GetOr(default: T): T {
      match this
      case Some(v) => v
      case None => default
    }
  }

  datatype Result<+T, +E> = Success(value: T) | Failure(error: E)
}
