/** The two result types the models share. */
module Wrappers {

  datatype Option<+T> = None | Some(value: T)

  datatype Result<+T, +E> = Ok(value: T) | Err(error: E)

  function Or<T>(o: Option<T>, default: T): T {
    if o.Some? then o.value else default
  }
}
