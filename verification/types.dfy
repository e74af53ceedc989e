/** Shared vocabulary of the game server: optional values, game status and
    difficulty levels. */
module Types {

  /** A value that may be absent (Python's `None`). */
  datatype Option<+T> = None | Some(value: T)

  /** Status of one game: `in_progress` until the game is won or lost;
      `won` and `lost` are terminal. */
  datatype Status = InProgress | Won | Lost {
    predicate IsTerminal() {
      !InProgress?
    }
  }

  /** The three difficulty levels a game can be created with. */
  datatype Difficulty = Easy | Medium | Hard

  /** The wire name of a status ("in_progress", "won", "lost"). */
  function StatusName(s: Status): string {
    match s
    case InProgress => "in_progress"
    case Won => "won"
    case Lost => "lost"
  }

  /** The wire name of a difficulty ("easy", "medium", "hard"). */
  function DifficultyName(d: Difficulty): string {
    match d
    case Easy => "easy"
    case Medium => "medium"
    case Hard => "hard"
  }

  function Max(a: int, b: int): int {
    if a < b then b else a
  }

  function Min(a: int, b: int): int {
    if a < b then a else b
  }
}
