/** Small concrete boards, showing what single operations of the code do. */
module Scenarios {
  import opened Outcomes
  import opened Ships
  import opened Game
  import Boards

  /** A miss on an empty board, then the same cell again: the repeat is refused. */
  method MissThenRepeat() returns (first: Outcome, second: Outcome)
    ensures first == Miss(0, 0) && second == DuplicateHit
  {
    var b := new Boards.Board(10, 10);
    first := b.Attack(0, 0);
    second := b.Attack(0, 0);
  }

  /**
   * The last hit on the only ship of the board sinks it and is reported as a Hit:
   * a board with no ships left is not game over.
   */
  lemma LoneShipSunk()
    ensures var lone := Ship(2, 1, 0, Horizontal, 1, 1);
      AttackStep(BoardState(10, 10, [lone], [Coord(1, 0)]), 2, 0)
        == (Hit(2, 0), BoardState(10, 10, [], [Coord(1, 0), Coord(2, 0)]))
  {
    var lone := Ship(2, 1, 0, Horizontal, 1, 1);
    assert FirstCovering([lone], Coord(2, 0)) == 0;
    assert RemoveAt([lone], 0) == [];
    IsGameOverIff([]);
    assert [Coord(1, 0)] + [Coord(2, 0)] == [Coord(1, 0), Coord(2, 0)];
  }

  /**
   * Sinking player 1's only ship while player 2 still has one ends the game, and
   * the GameOver outcome carries owner 1, the player who has just lost.
   */
  lemma SinkingLastShipOfOnePlayer()
    ensures var one, two := Ship(1, 1, 0, Horizontal, 1, 0), Ship(3, 0, 6, Vertical, 2, 0);
      AttackStep(BoardState(10, 10, [one, two], []), 1, 0)
        == (GameOver(1), BoardState(10, 10, [two], [Coord(1, 0)]))
  {
    var one, two := Ship(1, 1, 0, Horizontal, 1, 0), Ship(3, 0, 6, Vertical, 2, 0);
    assert FirstCovering([one, two], Coord(1, 0)) == 0;
    assert RemoveAt([one, two], 0) == [two];
    IsGameOverIff([two]);
    assert [] + [Coord(1, 0)] == [Coord(1, 0)];
  }

  /**
   * A ship object that an earlier attack sank can be passed to add_ship again:
   * placement never reads the damage, so the sunk ship is appended with hits equal
   * to its length, the board leaves the invariant, and its owner alone now counts
   * as the last owner standing.
   */
  lemma SunkShipPlacedAgain()
    ensures var sunk := Ship(1, 0, 0, Horizontal, 1, 1);
      var g := BoardState(10, 10, [], [Coord(0, 0)]);
      var (o, g') := AddShipStep(g, sunk);
      && o == Added(0, 0)
      && g' == BoardState(10, 10, [sunk], [Coord(0, 0)])
      && !Inv(g')
      && IsGameOver(g'.ships)
  {
    var sunk := Ship(1, 0, 0, Horizontal, 1, 1);
    assert [] + [sunk] == [sunk];
    IsGameOverIff([sunk]);
  }

  /** A ship crossing one already placed is refused as overlapping. */
  lemma CrossingShipRefused()
    ensures var placed, crosser := Ship(4, 2, 3, Horizontal, 1, 0), Ship(3, 4, 1, Vertical, 2, 0);
      AddShipStep(BoardState(10, 10, [placed], []), crosser).0 == Overlapping
  {
    var placed, crosser := Ship(4, 2, 3, Horizontal, 1, 0), Ship(3, 4, 1, Vertical, 2, 0);
    assert Covers(placed, Coord(4, 3)) && Covers(crosser, Coord(4, 3));
    OverlapsIffSharedCell(placed, crosser);
    assert Overlaps([placed][0], crosser);
  }

  /** A ship whose origin lies above the board is accepted: y is never checked for a horizontal ship. */
  lemma ShipAboveBoardAccepted()
    ensures var placed, above := Ship(4, 2, 3, Horizontal, 1, 0), Ship(2, 3, -4, Horizontal, 2, 0);
      AddShipStep(BoardState(10, 10, [placed], []), above)
        == (Added(3, -4), BoardState(10, 10, [placed, above], []))
  {
    var placed, above := Ship(4, 2, 3, Horizontal, 1, 0), Ship(2, 3, -4, Horizontal, 2, 0);
    OverlapsIffSharedCell(placed, above);
    assert !OverlapsAny([placed], above);
    assert [placed] + [above] == [placed, above];
  }
}
