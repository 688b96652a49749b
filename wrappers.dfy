/** The C# nullable value type `T?`, as a value. */
module Wrappers {

  datatype Option<+T> = None | Some(value: T) {

    /** The C# `??` operator: the value if there is one, `default` otherwise. */
    function GetOr(default: T): T
    {
      match this
      case Some(v) => v
      case None => default
    }
  }
}
