/** Values shared by the game controller and the scratch cards (types.ts). */
module Types {

  /** A value that may be absent: the source's `T | null`. */
  datatype Option<+T> = None | Some(value: T)

  /** One tile of the grid: its stable id, the prize number hidden under
      the cover, and whether the tile has been scratched open. */
  datatype ScratchItem = ScratchItem(id: int, value: int, isRevealed: bool)
}
