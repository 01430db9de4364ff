/** Value types shared by the model of the cookie package: bytes, optional
    values and the (value, error) pairs Go functions return. */
module Base {

  /** An element of a Go `[]byte`. */
  newtype byte = b: int | 0 <= b < 256

  /** A value that may be absent, such as the cookie a request may not carry. */
  datatype Option<+T> = None | Some(value: T)

  /** A Go `(T, error)` return: either the value (error == nil) or the error. */
  datatype Result<+T, +E> = Ok(value: T) | Err(error: E)
}
