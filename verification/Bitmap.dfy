/** Coverage bitmaps, as the executors report them. */
module Bitmaps {
  /** One entry of a coverage bitmap. */
  type Byte = x: nat | x < 256
}
