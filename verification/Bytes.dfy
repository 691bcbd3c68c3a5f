/** Bytes and the strings of C. */
module Bytes {
  type byte = x: int | 0 <= x < 256

  const NUL: byte := 0

  /** A C string holds no zero byte; the one that ends it is not part of it. */
  type CString = s: seq<byte> | NUL !in s
}
