// The result shape shared by the modules of this project.
module Wrappers {
  // An out-parameter that the C code fills in only when it returns true, or a
  // pointer that it may return as NULL.
  datatype Option<+T> = None | Some(value: T)
}
