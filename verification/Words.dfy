/** The 64-bit and 32-bit integers of the original, and what arithmetic on them wraps to. */
module Words {

  const MIB := 0x10_0000
  const TWO_32 := 0x1_0000_0000
  const TWO_63 := 0x8000_0000_0000_0000
  const TWO_64 := 0x1_0000_0000_0000_0000

  type Int64 = x: int | -TWO_63 <= x < TWO_63
  type Uint64 = x: int | 0 <= x < TWO_64
  type Uint32 = x: int | 0 <= x < TWO_32

  /** A result read as a signed 64-bit number. */
  function Wrap64(x: int): (w: Int64)
    ensures -TWO_63 <= x < TWO_63 ==> w == x
    ensures TWO_63 <= x < TWO_64 ==> w == x - TWO_64
  {
    (x + TWO_63) % TWO_64 - TWO_63
  }

  /** A result read as an unsigned 64-bit number. */
  function WrapU64(x: int): (w: Uint64)
    ensures 0 <= x < TWO_64 ==> w == x
    ensures TWO_64 <= x < 2 * TWO_64 ==> w == x - TWO_64
  {
    x % TWO_64
  }

  /** A result stored in 32 bits. */
  function WrapU32(x: int): (w: Uint32)
    ensures 0 <= x < TWO_32 ==> w == x
  {
    x % TWO_32
  }
}
