# Battleship board, modelled in Dafny

A model of the game-state tracker in `main.py`. The tracker manages one
Battleship board in memory. It places ships, resolves attacks and detects the
end of the game.

- `outcome.dfy` (module `Outcomes`) turns every result into a value. The Python
  code raises `ValueError`, `OutOfBounds`, `Overlapping`, `DuplicateHit` and
  `GameOver`, and returns a message on success. The model has one `Outcome`
  instead: `Added`, `Hit` and `Miss` carry the coordinate, `GameOver` carries
  the owner it names, and `InvalidLength`, `InvalidOwner`, `OutOfBounds`,
  `Overlapping` and `DuplicateHit` are the errors.
- `ship.dfy` (module `Ships`) holds `Orientation`, the coordinate `Coord`, the
  ship record `Ship` and its constructor `NewShip`. It also holds the two ways
  the code decides where a ship lies:
  - `Cells` is the coordinate list that `add_ship` builds;
  - `Covers` is the test that `attack` applies to each ship.
  The Python attack record `Hit` (main.py:27-30) is modelled as a `Coord`.
- `game.dfy` (module `Game`) treats the board as a value, `BoardState`. Each
  operation is a step function: `AddShipStep`, `AttackStep` (with its ship scan
  `Strike`) and `IsGameOver`. It also defines the board invariant `Inv` and
  proves the lemmas about these steps.
- `board.dfy` (module `Boards`) is the Python `Board` object itself. It is a
  class with `ships` and `hits` as `seq` fields. `AddShip` and `Attack` run the
  loops of the source and return early, as the source does. Each method is
  proved to perform exactly the step in `Game` and to keep `Inv`.
- `scenarios.dfy` (module `Scenarios`) proves the outcomes of single operations
  on small concrete boards, and of two attacks on a `Board`.

## Behaviour as written

These points are modelled as the code behaves. An idealised description of the
game would say otherwise on each of them.

- Placement checks only the far end of the extending axis: `x + length - 1 >=
  width` for a horizontal ship, `y + length - 1 >= height` for a vertical one.
  A negative origin is accepted, and so is a perpendicular coordinate off the
  board (`PerpendicularAxisUnchecked`, `Scenarios.ShipAboveBoardAccepted`). The
  board invariant therefore promises only what placement checked.
- `GameOver` carries the owner of the ship just sunk. If both players had
  ships before the attack, that owner is the loser: every ship left belongs to
  the other player (`GameOverNamesLoser`, `Scenarios.SinkingLastShipOfOnePlayer`).
- A board with no ships left is not game over. Sinking the only ship on a board
  therefore returns `Hit`, not `GameOver` (`Scenarios.LoneShipSunk`).
- The attacked cell is recorded before the ships are inspected. It stays
  recorded when the attack ends the game (`AttackRecordsShot`).
- A sinking that does not end the game is reported as a plain `Hit`
  (`AttackStrikesCoveringShip`).
- The construction error for a length of zero or less is a `ValueError` in the
  code. It is named `InvalidLength` here.

## Model

| member | source | states |
|---|---|---|
| `Ships.NewShip` | main.py:33-42 | Construction fails with InvalidLength exactly when length <= 0. Otherwise the ship holds the given length, origin, orientation and owner with zero hits, so it is afloat. |
| `Ships.CellsAgreeWithCovers` | main.py:63-96 | A cell is in the coordinate list that placement builds exactly when attack's horizontal or vertical test says the ship covers it. |
| `Ships.OverlapsIffSharedCell` | main.py:62-72 | Placement's overlap test holds exactly when some cell is covered by both ships. |
| `Game.FirstCovering` | main.py:87-102 | Returns the position of the first ship, in placement order, that covers the cell: no earlier ship covers it. Returns the length of the list when no ship covers it. |
| `Game.IsGameOverIff` | main.py:106-107 | Exactly one distinct owner remains iff the board has at least one ship and all its ships share one owner. Hence an empty board is not game over. |
| `Game.AddShipOutcomes` | main.py:52-76 | The checks run in order. InvalidOwner iff the owner is outside {1,2}, whatever the geometry. Then OutOfBounds iff the extending axis is overrun. Then Overlapping iff an existing ship shares a cell with the new one. Otherwise the ship is Added at its origin. A refusal leaves the board unchanged. Success appends the ship and leaves the attack log untouched. |
| `Game.AddShipKeepsInv` | main.py:62-74 | Placing an afloat ship keeps the invariant: ships pairwise do not overlap, every ship has a valid owner, is afloat and does not overrun its axis. |
| `Game.PerpendicularAxisUnchecked` | main.py:55-60 | On an empty board, a ship with a valid owner whose far end fits its extending axis is accepted, whatever its perpendicular coordinate and however negative its origin. |
| `Game.AtMostOneCovers` | main.py:87-102 | Under the invariant, at most one ship covers any cell, so the first covering ship is the only one. |
| `Game.AttackKeepsInv` | main.py:78-104 | An attack keeps the invariant. Attacked cells stay distinct and on the board. Ships stay pairwise disjoint, placed and afloat, through damage and through removal. |
| `Game.AttackRecordsShot` | main.py:79-85 | OutOfBounds iff the cell is off the board. DuplicateHit iff it is on the board and already attacked. Both leave the board unchanged. Any other attack appends the cell to the log, GameOver included. The log only grows and the board size stays fixed. |
| `Game.AttackStrikesCoveringShip` | main.py:87-102 | When ship k covers a fresh on-board cell, that ship alone gains a hit. If the hit reaches its length, only that ship is removed, the others keep their order, and the result is GameOver(owner of ship k) iff the remaining ships have one owner, otherwise Hit. If not, the ship is replaced by its damaged copy and the result is Hit. |
| `Game.AttackMisses` | main.py:87-104 | A fresh on-board attack is a Miss iff no ship covers the cell. A miss leaves every ship unchanged. |
| `Game.GameOverNamesLoser` | main.py:90-101 | If both owners had ships before the attack, a GameOver leaves ships on the board, all owned by the player that GameOver does not name. |
| `Game.RepeatAttackRejected` | main.py:82-85 | After any attack on an on-board cell, attacking the same cell again returns DuplicateHit and changes nothing, whether the first attack hit or missed. |
| `Boards.Board.constructor` | main.py:46-50 | A new board has the given height and width, no ships and no attacks, and satisfies the invariant. |
| `Boards.Board.AddShip` | main.py:52-76 | With its loop over the placed ships, performs exactly AddShipStep. The attack log is unchanged. The ship list is extended by the ship iff the outcome is Added. The invariant is kept. |
| `Boards.Board.Attack` | main.py:78-104 | With its loops over the attack log and the ships, performs exactly AttackStep and keeps the invariant. The attack log only grows. |
| `Boards.Board.IsGameOver` | main.py:106-107 | True iff ships remain and all of them share the first ship's owner. |
| `Scenarios.MissThenRepeat` | main.py:82-104 | On a new 10x10 `Board`, attacking (0,0) is a Miss. Attacking (0,0) again is a DuplicateHit. |
| `Scenarios.LoneShipSunk` | main.py:87-107 | The shot that sinks the only ship on a board returns Hit. It leaves no ships and both shots in the log. |
| `Scenarios.SinkingLastShipOfOnePlayer` | main.py:87-101 | A shot sinks player 1's only ship while player 2 still has a ship. It returns GameOver(1) and leaves player 2's ship. |
| `Scenarios.SunkShipPlacedAgain` | main.py:52-76 | A ship already sunk (hits equal to its length) passed to placement again is Added, because placement never reads hits. The board then breaks the invariant, and that ship's owner counts as the only owner for is_game_over. |
| `Scenarios.CrossingShipRefused` | main.py:62-72 | A vertical ship crossing a placed horizontal ship at one cell is refused as Overlapping. |
| `Scenarios.ShipAboveBoardAccepted` | main.py:55-74 | A horizontal ship with a negative y is appended and reported as Added at its origin. |

## Left out

- The demonstration block under `if __name__ == '__main__':` (main.py:110-143). It prints results and calls `exit()`.
- The exception class declarations (main.py:6-19) and raise/except control flow. Outcomes are returned as values instead.
- The message strings built with f-strings. Outcomes carry the coordinate or owner those messages name.
- Object identity and aliasing. A `Ship` is a value, so the damaged copy replaces it in the board's list (`ships[k := damaged]`). A caller still holding the Python object would see `hits` change; the model has no such reference. `list.remove` removes by identity; here removal is by position. This is the same position, because a ship always overlaps itself and so cannot be placed twice.
- The fall-through for an orientation that is neither value (main.py:58). `Orientation` has exactly two constructors.
- Python's dynamic typing. Coordinates, lengths, owners and the board size are unbounded integers, as Python's `int` is. Non-integer arguments are not modelled.
- Boards.Board.AddShip: requires `ship.Afloat()` (0 <= hits < length), while the Python method accepts any object and never reads `hits`. A `Ship` object that an earlier attack sank (hits == length) is therefore accepted when it is passed to `add_ship` again, on the same board or another, and from then on it counts for `is_game_over`. The requirement excludes this as reuse of a ship object, which falls under the identity and aliasing item above; `Game.Inv` accordingly holds only for boards built from fresh ships. `Scenarios.SunkShipPlacedAgain` shows the case on the value model.
