/** Python's `None`-or-value results. */
module Wrappers {

  /** `None` stands for Python's `None`; `Some(v)` for a returned value `v`. */
  datatype Option<+T> = None | Some(value: T)
}
