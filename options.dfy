/** Optional values and results with an error, shared by the front-end and back-end models. */
module Options {

  /** A value that may be absent (`null`/`undefined` in the front end, `None` in the back end). */
  datatype Option<T> = None | Some(value: T) {
    function GetOr(default: T): T {
      match this
      case Some(v) => v
      case None => default
    }
  }

  /** The outcome of an operation that can raise. */
  datatype Result<T, E> = Success(value: T) | Failure(error: E)
}
