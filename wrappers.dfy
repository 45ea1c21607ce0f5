/** Optional values, used where the source leaves a stack empty or finds nothing. */
module Wrappers {
  datatype Option<+T> = None | Some(value: T)
}
