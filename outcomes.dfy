/** Result shapes shared by the model of util.py. */
module Outcomes {

  /** Python's `None` or a value. */
  datatype Option<T> = None | Some(value: T)

  /** A call that either returns a value or raises `IndexError`
      (indexing an empty string, or a missing part of a `split`). */
  datatype Outcome<T> = Ok(value: T) | IndexError
}
