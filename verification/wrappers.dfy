/** The optional result used wherever the C code returns NULL on failure. */
module Wrappers {
  datatype Option<T> = None | Some(value: T)
}
