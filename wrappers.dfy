/** The optional result used wherever the source returns `Option<T>` or a
    `Result` whose error is propagated with `?`. */
module Wrappers {
  datatype Option<+T> = None | Some(value: T)
}
