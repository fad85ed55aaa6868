// Failure-carrying values shared by the whole model: an optional value (a Java
// `null`-able reference or an `Optional`), a result that is either a value or
// the business error the service throws, and an outcome for checks that only
// pass or throw.
module Results {

  datatype Option<+T> = None | Some(value: T) {
    function GetOr(default: T): T {
      match this
      case Some(v) => v
      case None => default
    }
  }

  datatype Result<+R, +E> = Success(value: R) | Failure(error: E)

  datatype Outcome<+E> = Pass | Fail(error: E)
}
