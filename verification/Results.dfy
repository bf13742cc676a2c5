/** Shared wrappers: Python's `None` as `Option`, and the exceptions the exporter
    raises or catches as the failure side of `Result`. */
module Results {

  /** An optional value; `None` doubles as the `None` gap sentinel in aligned arrays. */
  datatype Option<+T> = None | Some(value: T) {
    function GetOr(default: T): T {
      match this
      case Some(v) => v
      case None => default
    }
  }

  /** The exceptions of the exporter that the model keeps. */
  datatype Error =
    | InputError          // a category path (or a whole level) of the table of contents matched nothing
    | EmptyMax            // `max()` over an empty sequence (ValueError)
    | MissingKey          // dictionary lookup of an absent key (KeyError)
    | FileNotFound        // `os.stat` of a missing archive
    | NoRegexMatch        // `re.search(...).group` on a name the pattern does not match

  datatype Result<+T> = Success(value: T) | Failure(error: Error) {
    predicate IsFailure() {
      Failure?
    }

    function PropagateFailure<U>(): Result<U>
      requires Failure?
    {
      Failure(error)
    }

    function Extract(): T
      requires Success?
    {
      value
    }
  }
}
