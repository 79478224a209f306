/** Small failure-compatible wrapper shared by the other modules. */
module Wrappers {

  /** An optional value: JavaScript's `undefined` versus a present value. */
  datatype Option<T> = None | Some(value: T)
}
