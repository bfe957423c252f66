/** Bytes and cells of 32 bits: a `Cell` is signed, a `UCell` is the same bits without a sign. */
module Words {
  type Byte = b: int | 0 <= b < 0x100
  type Cell = c: int | -0x8000_0000 <= c < 0x8000_0000
  type UCell = c: int | 0 <= c < 0x1_0000_0000

  const CELLMIN := -0x8000_0000
  const CELLMAX := 0x7fff_ffff

  /** How many values a cell has. */
  const CELL := 0x1_0000_0000
}
