/** Failure-carrying values: `None` stands for Python's `None`, pandas' NaN
    or an exception that ends the computation. */
module Wrappers {

  datatype Option<+T> = None | Some(value: T) {

    /** The wrapped value, or `default` when there is none */
    function GetOr(default: T): T {
      match this
      case Some(v) => v
      case None => default
    }
  }
}
