/** Optional values and results with an error, used for `Optional<String>`
    citation keys and for the exceptions the merge command can raise. */
module Outcomes {

  datatype Option<+T> = None | Some(value: T)

  datatype Result<+T, +E> = Ok(value: T) | Err(error: E)
}
