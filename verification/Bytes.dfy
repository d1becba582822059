/** Bytes and optional values, shared by the protocol and the store. */
module Bytes {
  newtype byte = b: int | 0 <= b < 256

  datatype Option<T> = None | Some(value: T)
}
