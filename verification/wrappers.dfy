/** Optional values and results with an error message. `None` stands for Ruby's `nil`;
    `Failure` stands for an exception the source raises. */
module Wrappers {

  datatype Option<+T> = None | Some(value: T) {

    /** The value, or `default` when there is none (Ruby's `x || default`). */
    function GetOr(default: T): T {
      match this
      case Some(v) => v
      case None => default
    }
  }

  datatype Result<+R> = Success(value: R) | Failure(error: string)
}
