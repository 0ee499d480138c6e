/** Small failure-compatible wrapper used across the model. */
module Wrappers {

  /** A value that may be absent; `None` stands for a Go nil pointer or
      for "nothing happened" (no forward). */
  datatype Option<+T> = None | Some(value: T)
}
