/** Fixed-width unsigned words: every arithmetic step on them must be shown to stay in range. */
module Words {
  newtype uint8 = x: int | 0 <= x < 0x100
  newtype uint32 = x: int | 0 <= x < 0x1_0000_0000
  newtype uint64 = x: int | 0 <= x < 0x1_0000_0000_0000_0000

  // Where 32-bit and 64-bit arithmetic wraps.
  const WORD: nat := 0x1_0000_0000
  const WRAP: nat := 0x1_0000_0000_0000_0000
}
