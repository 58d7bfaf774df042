module Bytes {
  /** One octet. */
  type Byte = n: int | 0 <= n < 256
}
