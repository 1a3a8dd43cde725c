/** SQL-style nullable values: a column that may hold `null`. */
module Wrappers {

  /** `None` is SQL null; `Some(v)` is a present value. */
  datatype Option<+T> = None | Some(value: T)
}
