/** Small helper types shared by the modules of the benchmark harness model. */
module Wrappers {

  /** A value that may be absent: a missing file, an aborted run, an unset field. */
  datatype Option<+T> = None | Some(value: T)
}
