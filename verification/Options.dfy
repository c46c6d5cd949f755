/** Shared result types: an optional value and the application's error kinds. */
module Options {

  datatype Option<+T> = None | Some(value: T) {
    function GetOr(default: T): T {
      match this
      case Some(v) => v
      case None => default
    }
  }

  /** The kinds of `AppError` the modelled operations return; messages are dropped. */
  datatype AppError = Validation | Conflict | NotFound | Gone | Internal

  datatype Result<+T> = Ok(value: T) | Err(error: AppError)
}
