/** Small failure-carrying datatypes shared by every module of the model. */
module Wrappers {

  /** JavaScript `null`/`undefined` and Python `None` are both `None` here. */
  datatype Option<+T> = None | Some(value: T) {

    function GetOr(default: T): T {
      match this
      case Some(v) => v
      case None => default
    }
  }
}
