/** PHP's "value or nothing": `null`, `false` returned for "not found", an unset array key. */
module Optional {

  datatype Option<+T> = None | Some(value: T) {

    /** The value, or the given default when absent (PHP's `??` operator). */
    function GetOr(default: T): T {
      match this
      case Some(v) => v
      case None => default
    }
  }
}
