/** Values that may be absent, where the source uses None. */
module Wrappers {
  datatype Option<+T> = None | Some(value: T)
}
