/**
 * Option and Result carriers used across the model: `None` stands for a Java
 * `null` or a Python `None`, `Err` for an exception leaving a method.
 */
module Wrappers {

  datatype Option<+T> = None | Some(value: T)
  {
    function UnwrapOr(default: T): T
    {
      match this
      case Some(v) => v
      case None => default
    }
  }

  datatype Result<+T, +E> = Ok(value: T) | Err(error: E)
}
