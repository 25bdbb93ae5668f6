/** C++'s `uint8_t` as a range; the one place where a value is cut down to it says so. */
module Uint8 {
  type uint8 = x: int | 0 <= x < 256
}
