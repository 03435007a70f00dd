/** Fixed-width machine integers of the C++ sources. A value of such a type is an `int` in range; every
    place where the C++ wraps around is written out with one of the functions below. */
module Machine {
  const TWO32: int := 0x1_0000_0000
  const TWO63: int := 0x8000_0000_0000_0000
  const TWO64: int := 0x1_0000_0000_0000_0000
  const TWO127: int := 0x8000_0000_0000_0000_0000_0000_0000_0000
  const TWO128: int := 0x1_0000_0000_0000_0000_0000_0000_0000_0000

  type uint8 = x: int | 0 <= x < 0x100
  type uint32 = x: int | 0 <= x < 0x1_0000_0000
  type uint64 = x: int | 0 <= x < 0x1_0000_0000_0000_0000
  type int64 = x: int | -0x8000_0000_0000_0000 <= x < 0x8000_0000_0000_0000

  /** Unsigned 64-bit addition, wrapping around. */
  function Add64(a: uint64, b: uint64): (r: uint64)
    ensures r == a + b || (r == a + b - TWO64 && r < b && r < a)
    ensures r < b <==> a + b >= TWO64
  {
    if a + b < TWO64 then a + b else a + b - TWO64
  }

  /** Two's complement negation of an unsigned 64-bit word: `~x + 1`. */
  function Negate64(x: uint64): (r: uint64)
    ensures (x + r) % TWO64 == 0
  {
    Add64(TWO64 - 1 - x, 1)
  }

  /** Reinterpretation of an unsigned word as a signed one (two's complement). */
  function AsSigned64(x: uint64): (r: int64)
    ensures (x - r) % TWO64 == 0
  {
    if x < TWO63 then x else x - TWO64
  }

  /** Reinterpretation of a signed word as an unsigned one (two's complement). */
  function AsUnsigned64(x: int64): (r: uint64)
    ensures AsSigned64(r) == x
  {
    if x >= 0 then x else x + TWO64
  }
}
