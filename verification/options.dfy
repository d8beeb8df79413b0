/** Optional values and results with an error, as the model's PHP counterparts
    use `null` and exceptions. */
module Options {

  /** A value that may be absent (`null` in the source). */
  datatype Option<+T> = None | Some(value: T) {

    /** The value, or `default` when absent. */
    function GetOr(default: T): T {
      match this
      case Some(v) => v
      case None => default
    }
  }

  /** The errors the date constructors raise. */
  datatype DateError = InvalidDate

  /** The outcome of an operation that may fail. */
  datatype Result<+T> = Success(value: T) | Failure(error: DateError)
}
