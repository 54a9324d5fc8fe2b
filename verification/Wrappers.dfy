/** A result that may be missing: where the source throws, or returns false. */
module Wrappers {
  datatype Option<T> = None | Some(value: T)
}
