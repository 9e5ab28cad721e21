/** Failure-compatible wrappers used throughout the model: an optional value
    (Python's `None` or a value) and a result that is either a value or a
    raised exception. */
module Results {

  datatype Option<+T> = None | Some(value: T) {

    /** The value, or `default` when there is none. */
    function GetOr(default: T): T {
      match this
      case Some(v) => v
      case None => default
    }
  }

  datatype Result<+T, +E> = Success(value: T) | Failure(error: E) {

    predicate IsFailure() {
      Failure?
    }

    function PropagateFailure<U>(): Result<U, E>
      requires Failure?
    {
      Failure(error)
    }

    function Extract(): T
      requires Success?
    {
      value
    }
  }

  /** The exceptions the model lets escape, with their messages. */
  datatype Raised = ValueError(message: string) | RequestException(message: string)

  /** Python truthiness of an optional string: `None` and `""` are both false. */
  predicate Truthy(s: Option<string>) {
    s.Some? && s.value != ""
  }
}
