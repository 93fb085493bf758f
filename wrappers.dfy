/** Option and Result values, standing in for JavaScript's null and thrown errors. */
module Wrappers {

  datatype Option<+T> = None | Some(value: T)

  /** Ok carries a value; Err stands for an exception the source would throw. */
  datatype Result<+T, +E> = Ok(value: T) | Err(error: E)
}

/** Octets, as held by a Uint8Array. */
module Bytes {

  type byte = x: int | 0 <= x < 256
}
