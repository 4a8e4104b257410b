/**
 * The results of the board's operations. The Python code signals failures by
 * raising exceptions (ValueError, OutOfBounds, Overlapping, DuplicateHit,
 * GameOver) and success by returning a message; here every outcome is a value.
 */
module Outcomes {

  datatype Outcome =
    | Added(x: int, y: int)   // "Ship added at (x,y)"
    | Hit(x: int, y: int)     // "Hit at (x,y)", also returned when a sinking does not end the game
    | Miss(x: int, y: int)    // "Miss at (x,y)"
    | InvalidLength           // ValueError from Ship.__init__
    | InvalidOwner            // ValueError from Board.add_ship
    | OutOfBounds
    | Overlapping
    | DuplicateHit
    | GameOver(owner: int)    // carries the owner of the ship that was just sunk
  {
    /** The outcomes that leave the board exactly as it was. */
    predicate Rejected() {
      InvalidLength? || InvalidOwner? || OutOfBounds? || Overlapping? || DuplicateHit?
    }
  }

  datatype Result<T> = Ok(value: T) | Err(error: Outcome)
}
