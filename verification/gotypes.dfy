/** Go's fixed-width integer types, as the ring uses them. */
module GoTypes {

  /** Go's `uint32`: ring positions and checksums. */
  newtype uint32 = x: int | 0 <= x < 0x1_0000_0000
}
