/** Nullable values and thrown exceptions, as values.

    Kotlin's `T?` becomes `Option<T>`, and a handler that either returns or
    throws becomes a `Result<T>` whose failure names the exception. */
module Outcomes {

  /** A Kotlin nullable: `None` is `null`. */
  datatype Option<+T> = None | Some(value: T) {

    /** Kotlin's elvis operator `x ?: default`. */
    function GetOr(default: T): T {
      match this
      case Some(v) => v
      case None => default
    }
  }

  /** The exceptions the modelled code can raise. */
  datatype Error =
    | IllegalState(message: string)   // `throw IllegalStateException(message)`
    | NullState                       // `state!!` on a null state

  /** The normal return value of a handler, or the exception it threw. */
  datatype Result<+T> = Success(value: T) | Failure(error: Error)
}
