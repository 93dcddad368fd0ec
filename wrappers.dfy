/** Option and Result shared by the decoders. */
module Wrappers {

  /** A value that may be absent: `None` means "not read". */
  datatype Option<+T> = None | Some(value: T)

  /** Either a decoded value or the reason decoding stopped. */
  datatype Result<+R, +E> = Success(value: R) | Failure(error: E)
}
