/** The C integer conversions the drivers rely on: two's complement, wrapping. */
module CInt {

  const TWO_TO_32 := 0x1_0000_0000
  const TWO_TO_64 := 0x1_0000_0000_0000_0000
  const INT_MAX := 0x7FFF_FFFF

  /** Conversion to a 32-bit `int`. */
  function Int32(x: int): (r: int)
    ensures -INT_MAX - 1 <= r <= INT_MAX
    ensures -INT_MAX - 1 <= x <= INT_MAX ==> r == x
  {
    var u := x % TWO_TO_32;
    if u <= INT_MAX then u else u - TWO_TO_32
  }

  /** Conversion to a 32-bit `unsigned int`. */
  function Uint32(x: int): (r: int)
    ensures 0 <= r < TWO_TO_32
    ensures 0 <= x < TWO_TO_32 ==> r == x
  {
    x % TWO_TO_32
  }

  /** Conversion to a 64-bit `size_t`. */
  function Uint64(x: int): (r: int)
    ensures 0 <= r < TWO_TO_64
    ensures 0 <= x < TWO_TO_64 ==> r == x
  {
    x % TWO_TO_64
  }

  /** Out of range, too, a conversion keeps the value modulo the width of the type. */
  lemma ConversionsWrap(x: int)
    ensures Int32(x) == x % 0x1_0000_0000 || Int32(x) == x % 0x1_0000_0000 - 0x1_0000_0000
    ensures Uint32(x) == x % 0x1_0000_0000 && Uint64(x) == x % 0x1_0000_0000_0000_0000
  {
  }
}
