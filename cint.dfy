/** The C++ `int` of the benchmark helpers: a 32-bit two's-complement integer. */
module CInt {
  const MIN: int := -0x8000_0000
  const MAX: int := 0x7fff_ffff

  /** A value of type `int` on the platforms the benchmarks target. Arithmetic on it is
      checked: an expression whose value leaves the range is signed overflow, which C++
      leaves undefined, so the verifier must prove it cannot happen. */
  newtype int32 = x: int | -0x8000_0000 <= x < 0x8000_0000

  /** Whether x can be held in an `int`. */
  predicate Fits(x: int) {
    MIN <= x <= MAX
  }
}
