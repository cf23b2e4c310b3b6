/** Failure-compatible wrapper used where the Go program would panic. */
module Wrappers {

  /** `None` stands for a run that stops with a Go runtime panic
      (an index out of range); `Some` carries the computed value. */
  datatype Option<+T> = None | Some(value: T)
}
