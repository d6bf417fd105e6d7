/** Optional values: SQL NULL, an absent JSON field, or a JavaScript `NaN`/`null`,
    depending on where the value comes from. */
module Optional {

  datatype Option<+T> = None | Some(value: T) {

    /** The carried value, or `default` when there is none (PHP's `??`). */
    function GetOr(default: T): T {
      match this
      case Some(v) => v
      case None => default
    }
  }
}
