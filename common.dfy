/** Option and Result values used across the model for missing JSON fields,
    JavaScript's NaN results and rejected submissions. */
module Common {

  datatype Option<+T> = None | Some(value: T) {
    /** The value, or `default` when it is missing. */
    function GetOr(default: T): T {
      match this
      case Some(v) => v
      case None => default
    }
  }

  datatype Result<+T, +E> = Ok(value: T) | Err(error: E)
}
