/** Bytes and the optional result type shared by the model. */
module Bytes {

  /** One octet of a buffer, read as `unsigned char`. */
  type byte = b: int | 0 <= b < 256

  datatype Option<+T> = None | Some(value: T)
}
