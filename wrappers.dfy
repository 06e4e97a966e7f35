/** The Option datatype used for "a record, or nothing". */
module Wrappers {

  /** `None` stands for JavaScript's `undefined`/`null`, `Some(v)` for a found value. */
  datatype Option<+T> = None | Some(value: T)
}
