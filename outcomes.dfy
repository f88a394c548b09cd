/** Results of the spell checker's operations: a value, or the Python exception that the
    operation raises instead of returning. */
module Outcomes {

  /** The only exception the modelled code can raise on its own: reading the loop
      variable `row` of `levenshtein_distance` after a loop that never ran. */
  datatype Error = UnboundLocalError(name: string)

  datatype Result<T> = Ok(value: T) | Err(error: Error)

  /** The state of a Python local that may or may not have been bound. */
  datatype Option<T> = None | Some(value: T)
}
