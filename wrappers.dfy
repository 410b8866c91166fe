/** An optional value: Ruby's `nil` or a value. */
module Wrappers {
  datatype Option<T> = None | Some(value: T)
  {
    /** The value, or `default` when there is none (Ruby's `x || default` on a hash entry). */
    function GetOr(default: T): T
    {
      match this
      case None => default
      case Some(v) => v
    }
  }
}
