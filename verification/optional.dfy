/** A value that may be absent: the model's stand-in for C# `null` and
    JavaScript `null`/`undefined`. */
module Optional {

  datatype Option<+T> = None | Some(value: T) {

    /** The value, or `default` when there is none (JavaScript's `??`). */
    function OrElse(default: T): T {
      match this
      case Some(v) => v
      case None => default
    }
  }
}
