/**
 * The Python `Board` object (main.py:45-107): two lists updated in place and the
 * loops of add_ship and attack. Each method is proved to perform exactly the step
 * that module Game defines, and to keep the board invariant.
 */
module Boards {
  import opened Outcomes
  import opened Ships
  import Game

  class Board {
    const height: int
    const width: int
    var ships: seq<Ship>   // ships afloat, in placement order
    var hits: seq<Coord>   // every cell attacked so far, in order

    /** The board as a value. */
    function State(): Game.BoardState
      reads this
    {
      Game.BoardState(height, width, ships, hits)
    }

    ghost predicate Valid()
      reads this
    {
      Game.Inv(State())
    }

    /** Board.__init__: no ships and no attacks yet; the size is not checked. */
    constructor (height: int, width: int)
      ensures Valid()
      ensures State() == Game.EmptyBoard(height, width)
    {
      this.height := height;
      this.width := width;
      ships := [];
      hits := [];
    }

    /**
     * add_ship: refuses an invalid owner, then an overrun of the extending axis,
     * then an overlap with a ship already placed; otherwise appends the ship.
     */
    method AddShip(ship: Ship) returns (o: Outcome)
      requires Valid()
      requires ship.Afloat()
      modifies this
      ensures Valid()
      ensures (o, State()) == Game.AddShipStep(old(State()), ship)
      ensures hits == old(hits)
      ensures ships == if o.Added? then old(ships) + [ship] else old(ships)
    {
      Game.AddShipKeepsInv(State(), ship);
      if ship.owner > 2 || ship.owner < 1 {
        return InvalidOwner;
      }
      match ship.orientation {
        case Horizontal =>
          if ship.x + ship.length - 1 >= width {
            return OutOfBounds;
          }
        case Vertical =>
          if ship.y + ship.length - 1 >= height {
            return OutOfBounds;
          }
      }
      var placed := ships;
      for k := 0 to |placed|
        invariant forall j :: 0 <= j < k ==> !Overlaps(placed[j], ship)
      {
        if Overlaps(placed[k], ship) {
          return Overlapping;
        }
      }
      ships := ships + [ship];
      return Added(ship.x, ship.y);
    }

    /**
     * attack: refuses a cell off the board, then a cell already attacked; otherwise
     * records the cell, then damages the first ship over it, removing it when sunk
     * and reporting GameOver when one owner is left.
     */
    method Attack(x: int, y: int) returns (o: Outcome)
      requires Valid()
      modifies this
      ensures Valid()
      ensures (o, State()) == Game.AttackStep(old(State()), x, y)
      ensures old(hits) <= hits
    {
      Game.AttackKeepsInv(State(), x, y);
      if x < 0 || x >= width || y < 0 || y >= height {
        return OutOfBounds;
      }
      var c := Coord(x, y);
      var attacked := hits;
      for i := 0 to |attacked|
        invariant forall j :: 0 <= j < i ==> attacked[j] != c
      {
        if attacked[i] == c {
          return DuplicateHit;
        }
      }
      hits := hits + [c];
      var afloat := ships;
      for k := 0 to |afloat|
        invariant ships == afloat
        invariant forall j :: 0 <= j < k ==> !Covers(afloat[j], c)
      {
        var ship := afloat[k];
        if Covers(ship, c) {
          ship := ship.(hits := ship.hits + 1);
          if ship.hits == ship.length {
            ships := Game.RemoveAt(ships, k);
            if IsGameOver() {
              return GameOver(ship.owner);
            }
          } else {
            ships := ships[k := ship];
          }
          return Hit(x, y);
        }
      }
      return Miss(x, y);
    }

    /** is_game_over: true exactly when ships remain and all belong to one owner. */
    predicate IsGameOver()
      reads this
      ensures IsGameOver() <==>
        |ships| > 0 && forall i :: 0 <= i < |ships| ==> ships[i].owner == ships[0].owner
    {
      Game.IsGameOverIff(ships);
      Game.IsGameOver(ships)
    }
  }
}
