/** Bytes, optional values and result codes. */
module Basics {
  type byte = x: int | 0 <= x < 256

  datatype Option<T> = None | Some(value: T)

  // errno.h and stdio.h
  const EINVAL := 22
  const EOF := -1

  // hdr_histogram_log.h
  const HDR_ENCODED_INPUT_TOO_LONG := -29990
  const HDR_VALUE_TRUNCATED := -29991
  const HDR_TRAILING_ZEROS_INVALID := -29992
}
