/** The records the game engine and the word supply share (types.ts). */
module Types {

  /** A value that may be absent: a missing reply text, a failed parse, no locked word. */
  datatype Option<+T> = None | Some(value: T)

  /** The phases of a game instance. `Idle` is declared by the program but the engine never enters it. */
  datatype GameStatus = Idle | Loading | Playing | GameOver

  /**
   * One falling word. `x` and `y` are percentages of the playfield's width and height
   * (`y` grows downwards), `speed` is the word's own fall rate per 16 ms reference frame,
   * `typedIndex` counts the correctly typed leading letters and `isLocked` marks the word
   * that receives the player's keystrokes.
   */
  datatype Word = Word(
    id: string,
    text: string,
    x: real,
    y: real,
    speed: real,
    typedIndex: nat,
    isLocked: bool)
}
