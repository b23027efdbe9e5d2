/** The fixed-width unsigned integers of the sources. */
module WordTypes {
  const W: int := 0x1_0000_0000

  type Byte = x: int | 0 <= x < 256
  type Word = x: int | 0 <= x < 0x1_0000_0000
}
