/** The width of C's `int` on the platforms the program targets (32-bit two's complement). */
module CInt {

  const INT_MIN: int := -0x8000_0000
  const INT_MAX: int := 0x7fff_ffff

  /** v is representable as a C `int`. */
  predicate IsInt32(v: int) {
    INT_MIN <= v <= INT_MAX
  }
}
