/** An optional value: the renderer's early returns and skipped pixels. */
module Wrappers {
  datatype Option<T> = None | Some(value: T)
}
