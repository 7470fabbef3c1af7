/** Option and Result, the two failure-carrying shapes the Rust code returns. */
module Wrappers {

  datatype Option<+T> = None | Some(value: T)
  {
    /** `unwrap_or`: the carried value, or `default` when there is none. */
    function UnwrapOr(default: T): T
    {
      match this
      case Some(v) => v
      case None => default
    }
  }

  /** `Result<T, String>` of the Rust commands: `Ok` or an error message. */
  datatype Result<+T> = Ok(value: T) | Err(error: string)
}
