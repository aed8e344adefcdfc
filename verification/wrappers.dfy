/** Kotlin's nullable values (`T?`), as an Option datatype. */
module Wrappers {

  /** `None` is Kotlin's `null`; `Some(v)` is a present value. */
  datatype Option<+T> = None | Some(value: T)
}
