/** Contents of a cell. */
module Pieces {

  /** EMPTY, RED, BLUE and BLOCKED are the colours a square can hold.
   *  Border stands for the null that the cells of the two-deep border keep:
   *  the board never assigns them, so they read neither EMPTY nor BLOCKED. */
  datatype PieceColor = Empty | Red | Blue | Blocked | Border

  /** The colours of the two players. */
  type Side = c: PieceColor | c == Red || c == Blue witness Red

  /** The other player. */
  function Opposite(s: Side): (o: Side)
    ensures o != s && (o == Red <==> s == Blue)
  {
    if s == Red then Blue else Red
  }
}

/** The error path of the game: a GameException and its message, and the
 *  optional (nullable) values the game passes around. */
module Outcomes {

  datatype Outcome = Done | Fail(msg: string)

  datatype Option<T> = None | Some(value: T)
}
