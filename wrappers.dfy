/** An optional value: JavaScript's `undefined` (or `null`) versus a present value. */
module Wrappers {

  datatype Option<T> = None | Some(value: T)
}
