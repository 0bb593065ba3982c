/** The C types the model shares: the terminator of C strings and the integer types of the edit-distance engine. */
module CTypes {

  /** The C string terminator. */
  const NUL: char := '\0'

  /** A C string's contents: the characters before its terminator. */
  predicate CString(s: seq<char>)
  {
    NUL !in s
  }

  const INT_MAX: int := 0x7FFF_FFFF
  const UINT_MAX: int := 0xFFFF_FFFF

  /** C `int`; arithmetic on it is proved never to leave the range. */
  newtype Int32 = x: int | -0x8000_0000 <= x <= 0x7FFF_FFFF

  /** C `unsigned int`; arithmetic on it wraps modulo 2^32. */
  newtype UInt32 = x: int | 0 <= x <= 0xFFFF_FFFF

  /** Unsigned addition, which wraps around modulo 2^32. */
  function AddU32(x: UInt32, y: UInt32): (r: UInt32)
    ensures x as int + y as int <= UINT_MAX ==> r as int == x as int + y as int
    ensures x as int + y as int > UINT_MAX ==> r as int == x as int + y as int - (UINT_MAX + 1)
  {
    ((x as int + y as int) % (UINT_MAX + 1)) as UInt32
  }

  /**
   * The conversion of an `unsigned int` to `int` as the usual two's-complement
   * targets do it: values above INT_MAX come out negative, 2^32 lower.
   */
  function ToInt32(u: UInt32): (r: Int32)
    ensures u as int <= INT_MAX ==> r as int == u as int
    ensures r as int == u as int || r as int == u as int - (UINT_MAX + 1)
  {
    if u as int <= INT_MAX then u as int as Int32 else (u as int - (UINT_MAX + 1)) as Int32
  }
}
