/** Ruby's "a value or nil" and "a value or a raised error", as datatypes. */
module Wrappers {

  /** A Ruby value that may be `nil`. */
  datatype Nilable<+T> = Nil | Some(value: T) {

    /** The value, or `default` when nil (Ruby `x || default` for non-boolean values). */
    function GetOr(default: T): T
    {
      match this
      case Some(v) => v
      case Nil => default
    }
  }

  /** The outcome of a call that may raise: `Err` carries the exception's message. */
  datatype Result<+T> = Ok(value: T) | Err(message: string)
}
