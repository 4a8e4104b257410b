/**
 * The board as a value and its operations as step functions from one board
 * state to the next (main.py:45-107). The class in board.dfy runs these steps
 * in place, with the loops of the Python code; this module states what each
 * step does and proves what the steps preserve.
 */
module Game {
  import opened Outcomes
  import opened Ships

  /** The fields of a Python `Board`: its size, the ships afloat and the cells attacked. */
  datatype BoardState = BoardState(height: int, width: int, ships: seq<Ship>, hits: seq<Coord>)

  function EmptyBoard(height: int, width: int): BoardState {
    BoardState(height, width, [], [])
  }

  predicate ValidOwner(owner: int) {
    1 <= owner <= 2
  }

  /** add_ship's bounds test: only the far end of the extending axis is compared with the board. */
  predicate Overruns(g: BoardState, s: Ship) {
    match s.orientation
    case Horizontal => s.x + s.length - 1 >= g.width
    case Vertical => s.y + s.length - 1 >= g.height
  }

  /** attack's bounds test. */
  predicate OnBoard(g: BoardState, c: Coord) {
    0 <= c.x < g.width && 0 <= c.y < g.height
  }

  /** Some ship already placed overlaps the new one. */
  predicate OverlapsAny(ships: seq<Ship>, s: Ship) {
    exists j :: 0 <= j < |ships| && Overlaps(ships[j], s)
  }

  /** The distinct owners of the ships still afloat. */
  function Owners(ships: seq<Ship>): set<int> {
    set s | s in ships :: s.owner
  }

  /** is_game_over: exactly one distinct owner remains. */
  predicate IsGameOver(ships: seq<Ship>) {
    |Owners(ships)| == 1
  }

  /** The position of the first ship, in placement order, that lies over c; |ships| if none. */
  function FirstCovering(ships: seq<Ship>, c: Coord): (k: nat)
    ensures k <= |ships|
    ensures k < |ships| ==> Covers(ships[k], c)
    ensures forall j :: 0 <= j < k ==> !Covers(ships[j], c)
  {
    if ships == [] then 0
    else if Covers(ships[0], c) then 0
    else 1 + FirstCovering(ships[1..], c)
  }

  function RemoveAt(ships: seq<Ship>, k: nat): seq<Ship>
    requires k < |ships|
  {
    ships[..k] + ships[k + 1..]
  }

  /** add_ship (main.py:52-76): owner, then bounds, then overlap; on success the ship is appended. */
  function AddShipStep(g: BoardState, s: Ship): (Outcome, BoardState) {
    if s.owner > 2 || s.owner < 1 then (InvalidOwner, g)
    else if Overruns(g, s) then (OutOfBounds, g)
    else if OverlapsAny(g.ships, s) then (Overlapping, g)
    else (Added(s.x, s.y), g.(ships := g.ships + [s]))
  }

  /** The ship scan of attack (main.py:87-104), after the shot has been recorded. */
  function Strike(ships: seq<Ship>, c: Coord): (Outcome, seq<Ship>) {
    var k := FirstCovering(ships, c);
    if k == |ships| then (Miss(c.x, c.y), ships)
    else
      var damaged := ships[k].(hits := ships[k].hits + 1);
      if damaged.hits == damaged.length then
        var rest := RemoveAt(ships, k);
        (if IsGameOver(rest) then GameOver(damaged.owner) else Hit(c.x, c.y), rest)
      else
        (Hit(c.x, c.y), ships[k := damaged])
  }

  /** attack (main.py:78-104): bounds, then repeats; the shot is recorded before any ship is inspected. */
  function AttackStep(g: BoardState, x: int, y: int): (Outcome, BoardState) {
    var c := Coord(x, y);
    if x < 0 || x >= g.width || y < 0 || y >= g.height then (OutOfBounds, g)
    else if c in g.hits then (DuplicateHit, g)
    else
      var (o, ships') := Strike(g.ships, c);
      (o, g.(ships := ships', hits := g.hits + [c]))
  }

  // ---------------------------------------------------------------------------
  // The board invariant

  ghost predicate NoOverlaps(ships: seq<Ship>) {
    forall i, j :: 0 <= i < j < |ships| ==> !Overlaps(ships[i], ships[j])
  }

  ghost predicate Distinct(hits: seq<Coord>) {
    forall i, j :: 0 <= i < j < |hits| ==> hits[i] != hits[j]
  }

  /** A well-placed ship: valid owner, afloat, and not overrunning its extending axis. */
  ghost predicate Placed(g: BoardState, s: Ship) {
    ValidOwner(s.owner) && s.Afloat() && !Overruns(g, s)
  }

  /**
   * What every board satisfies that is built only from fresh ships (each placed
   * at most once and undamaged when placed): ships pairwise disjoint, each placed
   * within the checks of add_ship and not yet sunk; attacked cells distinct and
   * on the board.
   */
  ghost predicate Inv(g: BoardState) {
    && NoOverlaps(g.ships)
    && (forall i :: 0 <= i < |g.ships| ==> Placed(g, g.ships[i]))
    && Distinct(g.hits)
    && (forall i :: 0 <= i < |g.hits| ==> OnBoard(g, g.hits[i]))
  }

  // ---------------------------------------------------------------------------
  // is_game_over

  /** Exactly one distinct owner means: some ship remains, and all remaining ships share its owner. */
  lemma IsGameOverIff(ships: seq<Ship>)
    ensures IsGameOver(ships) <==>
      |ships| > 0 && forall i :: 0 <= i < |ships| ==> ships[i].owner == ships[0].owner
  {
    var owners := Owners(ships);
    if |ships| == 0 {
      assert owners == {};
    } else {
      var o := ships[0].owner;
      assert o in owners;
      if forall i :: 0 <= i < |ships| ==> ships[i].owner == o {
        assert owners == {o};
      }
      if IsGameOver(ships) {
        assert |owners - {o}| == 0;
        forall i | 0 <= i < |ships| ensures ships[i].owner == o {
          var p := ships[i].owner;
          assert p in owners;
        }
      }
    }
  }

  // ---------------------------------------------------------------------------
  // Placement

  /**
   * The outcome of add_ship in the system's own terms: each error in the order the
   * checks run, overlap meaning a shared cell; a refused ship leaves the board as it
   * was, an accepted one is appended and the attack log is untouched.
   */
  lemma AddShipOutcomes(g: BoardState, s: Ship)
    ensures var (o, g') := AddShipStep(g, s);
      && (o == InvalidOwner <==> !ValidOwner(s.owner))
      && (o == OutOfBounds <==> ValidOwner(s.owner) && Overruns(g, s))
      && (o == Overlapping <==>
            ValidOwner(s.owner) && !Overruns(g, s) &&
            exists j, c :: 0 <= j < |g.ships| && Covers(g.ships[j], c) && Covers(s, c))
      && (o.Added? <==> ValidOwner(s.owner) && !Overruns(g, s) && !OverlapsAny(g.ships, s))
      && (o.Added? ==> o == Added(s.x, s.y) && g' == g.(ships := g.ships + [s]))
      && (!o.Added? ==> o.Rejected() && g' == g)
  {
    forall j | 0 <= j < |g.ships| {
      OverlapsIffSharedCell(g.ships[j], s);
    }
  }

  /** A placement that succeeds keeps the board invariant, in particular no two ships overlap. */
  lemma AddShipKeepsInv(g: BoardState, s: Ship)
    requires Inv(g)
    requires s.Afloat()
    ensures Inv(AddShipStep(g, s).1)
  {
  }

  /**
   * Placement checks neither a negative origin nor the perpendicular coordinate:
   * on an empty board, a ship with a valid owner whose far end fits its extending
   * axis is accepted, whatever its other coordinates are.
   */
  lemma PerpendicularAxisUnchecked(g: BoardState, s: Ship)
    requires g.ships == []
    requires ValidOwner(s.owner)
    requires s.orientation == Horizontal ==> s.x + s.length - 1 < g.width
    requires s.orientation == Vertical ==> s.y + s.length - 1 < g.height
    ensures AddShipStep(g, s).0 == Added(s.x, s.y)
  {
  }

  // ---------------------------------------------------------------------------
  // Attack

  /** With the invariant, the first ship over a cell is the only one. */
  lemma AtMostOneCovers(g: BoardState, c: Coord, i: int, j: int)
    requires Inv(g)
    requires 0 <= i < |g.ships| && 0 <= j < |g.ships|
    requires Covers(g.ships[i], c) && Covers(g.ships[j], c)
    ensures i == j
  {
    if i < j {
      OverlapsIffSharedCell(g.ships[i], g.ships[j]);
    } else if j < i {
      OverlapsIffSharedCell(g.ships[j], g.ships[i]);
    }
  }

  /** Removing position k keeps every other ship, in order, shifting the later ones down by one. */
  lemma RemoveAtPreserves(ships: seq<Ship>, k: nat)
    requires k < |ships|
    ensures |RemoveAt(ships, k)| == |ships| - 1
    ensures forall i :: 0 <= i < |ships| - 1 ==>
      RemoveAt(ships, k)[i] == ships[if i < k then i else i + 1]
  {
  }

  /**
   * An attack keeps the board invariant: the attack log stays duplicate-free and
   * on the board, and the ships stay disjoint, placed and afloat.
   */
  lemma AttackKeepsInv(g: BoardState, x: int, y: int)
    requires Inv(g)
    ensures Inv(AttackStep(g, x, y).1)
  {
    var c := Coord(x, y);
    var (o, g') := AttackStep(g, x, y);
    if OnBoard(g, c) && c !in g.hits {
      var hits := g'.hits;
      assert hits == g.hits + [c];
      forall i, j | 0 <= i < j < |hits| ensures hits[i] != hits[j] {
        if j == |g.hits| {
          assert hits[i] == g.hits[i];
        }
      }
      var k := FirstCovering(g.ships, c);
      if k < |g.ships| {
        var damaged := g.ships[k].(hits := g.ships[k].hits + 1);
        CellsIgnoreDamage(g.ships[k], g.ships[k].hits + 1);
        if damaged.hits == damaged.length {
          RemoveAtPreserves(g.ships, k);
          var ships := g'.ships;
          forall i, j | 0 <= i < j < |ships| ensures !Overlaps(ships[i], ships[j]) {
            var i', j' := if i < k then i else i + 1, if j < k then j else j + 1;
            assert ships[i] == g.ships[i'] && ships[j] == g.ships[j'];
          }
        }
      }
    }
  }

  /**
   * The attack log: an attack off the board or on a cell already attacked changes
   * nothing; any other attack appends its cell, whatever it strikes, even when it
   * ends the game. The log only grows, and the board size never changes.
   */
  lemma AttackRecordsShot(g: BoardState, x: int, y: int)
    ensures var (o, g') := AttackStep(g, x, y);
      && g'.width == g.width && g'.height == g.height
      && (o == OutOfBounds <==> !OnBoard(g, Coord(x, y)))
      && (o == DuplicateHit <==> OnBoard(g, Coord(x, y)) && Coord(x, y) in g.hits)
      && (o.Rejected() ==> g' == g)
      && (!o.Rejected() ==> g'.hits == g.hits + [Coord(x, y)])
      && g.hits <= g'.hits
  {
  }

  /**
   * What the ship scan does, on a board satisfying the invariant: a miss leaves every
   * ship as it was and happens exactly when no ship lies over the cell; otherwise
   * the one ship over it takes a hit, and is removed when that hit reaches its length,
   * leaving every other ship as it was and in order. GameOver is returned exactly
   * when a sinking leaves a single distinct owner, and it names the owner of the
   * sunk ship; a sinking that does not end the game is still reported as a Hit.
   */
  lemma AttackStrikesCoveringShip(g: BoardState, x: int, y: int, k: int)
    requires Inv(g)
    requires OnBoard(g, Coord(x, y)) && Coord(x, y) !in g.hits
    requires 0 <= k < |g.ships| && Covers(g.ships[k], Coord(x, y))
    ensures var (o, g') := AttackStep(g, x, y);
      var damaged := g.ships[k].(hits := g.ships[k].hits + 1);
      if damaged.hits == damaged.length then
        && g'.ships == RemoveAt(g.ships, k)
        && (o.GameOver? <==> IsGameOver(g'.ships))
        && (o.GameOver? ==> o.owner == g.ships[k].owner)
        && (!o.GameOver? ==> o == Hit(x, y))
      else
        g'.ships == g.ships[k := damaged] && o == Hit(x, y)
  {
    var f := FirstCovering(g.ships, Coord(x, y));
    AtMostOneCovers(g, Coord(x, y), f, k);
  }

  lemma AttackMisses(g: BoardState, x: int, y: int)
    requires OnBoard(g, Coord(x, y)) && Coord(x, y) !in g.hits
    ensures var (o, g') := AttackStep(g, x, y);
      (o == Miss(x, y) <==> forall j :: 0 <= j < |g.ships| ==> !Covers(g.ships[j], Coord(x, y)))
      && (o == Miss(x, y) ==> g'.ships == g.ships)
  {
  }

  /**
   * When both players still had ships, the GameOver payload names the player who
   * has just lost the last ship, not the survivor: every ship left belongs to the
   * other owner.
   */
  lemma GameOverNamesLoser(g: BoardState, x: int, y: int)
    requires Inv(g)
    requires 1 in Owners(g.ships) && 2 in Owners(g.ships)
    ensures var (o, g') := AttackStep(g, x, y);
      o.GameOver? ==>
        && g'.ships != []
        && forall i :: 0 <= i < |g'.ships| ==> g'.ships[i].owner == 3 - o.owner
  {
    var c := Coord(x, y);
    var (o, g') := AttackStep(g, x, y);
    if o.GameOver? {
      var k := FirstCovering(g.ships, c);
      assert k < |g.ships|;
      var w := g.ships[k].owner;
      assert o.owner == w;
      var rest := g'.ships;
      RemoveAtPreserves(g.ships, k);
      IsGameOverIff(rest);
      var survivor := rest[0].owner;
      // The other player still has a ship somewhere; it cannot be the sunk one.
      var other := 3 - w;
      assert ValidOwner(w);
      assert other in Owners(g.ships);
      var s :| s in g.ships && s.owner == other;
      var j :| 0 <= j < |g.ships| && g.ships[j] == s;
      assert j != k;
      var j' := if j < k then j else j - 1;
      assert rest[j'] == s;
      assert survivor == other;
    }
  }

  /** Attacking the same cell a second time is refused, whatever the first attack struck. */
  lemma RepeatAttackRejected(g: BoardState, x: int, y: int)
    requires OnBoard(g, Coord(x, y))
    ensures var g1 := AttackStep(g, x, y).1;
      AttackStep(g1, x, y) == (DuplicateHit, g1)
  {
  }
}
