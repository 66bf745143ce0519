/** C#'s nullable references and `Nullable<T>` values, as an option type. */
module Optional {

  /** `None` stands for C#'s `null`. */
  datatype Option<+T> = None | Some(value: T) {

    /** The value, or `fallback` when null (`GetValueOrDefault`). */
    function GetOr(fallback: T): T {
      match this
      case Some(v) => v
      case None => fallback
    }
  }
}
