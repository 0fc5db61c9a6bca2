/** Machine words shared by the drivers: 32-bit register values and the
    64-bit values the kernel assembles from two of them. */
module Words {

  const TWO_32: nat := 0x1_0000_0000
  const TWO_64: nat := 0x1_0000_0000_0000_0000

  /** A `u32` read from a register, as a number. */
  type u32 = x: int | 0 <= x < TWO_32

  /** A `u64` (and, on this 64-bit target, a `usize`). */
  type u64 = x: int | 0 <= x < TWO_64

  /** `((hi as u64) << 32) | (lo as u64)`: the two words occupy disjoint bit
      ranges, so the OR is the sum `hi * 2^32 + lo`. */
  function Join(hi: u32, lo: u32): (v: u64)
    ensures v / TWO_32 == hi && v % TWO_32 == lo
  {
    hi * TWO_32 + lo
  }

  /** The high word of a 64-bit value. */
  function Hi(v: u64): u32
  {
    v / TWO_32
  }

  /** The low word of a 64-bit value. */
  function Lo(v: u64): u32
  {
    v % TWO_32
  }

  /** Joining the two halves of a value gives the value back. */
  lemma JoinSplit(v: u64)
    ensures Join(Hi(v), Lo(v)) == v
  {
  }

  /** Splitting a joined value gives the two words back. */
  lemma SplitJoin(hi: u32, lo: u32)
    ensures Hi(Join(hi, lo)) == hi && Lo(Join(hi, lo)) == lo
  {
  }
}
