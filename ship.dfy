/** Ships and the grid cells they occupy (main.py:22-42). */
module Ships {
  import opened Outcomes

  datatype Orientation = Horizontal | Vertical

  /** A grid cell. An attack record (the Python class `Hit`) is one of these. */
  datatype Coord = Coord(x: int, y: int)

  /** One vessel: its shape and position, its owner and the damage it has taken. */
  datatype Ship = Ship(length: int, x: int, y: int, orientation: Orientation, owner: int, hits: int)
  {
    /** Damage is non-negative and has not yet reached the length. */
    predicate Afloat() {
      0 <= hits < length
    }
  }

  /** Ship.__init__: a length of zero or less is refused; otherwise the ship is undamaged. */
  function NewShip(length: int, x: int, y: int, orientation: Orientation, owner: int): (r: Result<Ship>)
    ensures r.Err? <==> length <= 0
    ensures r.Err? ==> r.error == InvalidLength
    ensures r.Ok? ==> r.value.Afloat() && r.value.hits == 0
    ensures r.Ok? ==> r.value.length == length && r.value.x == x && r.value.y == y
    ensures r.Ok? ==> r.value.orientation == orientation && r.value.owner == owner
  {
    if length <= 0 then Err(InvalidLength)
    else Ok(Ship(length, x, y, orientation, owner, 0))
  }

  /** The i-th cell of a ship, counted from its origin along its orientation. */
  function CellAt(s: Ship, i: int): Coord {
    Coord(s.x + (if s.orientation == Horizontal then i else 0),
          s.y + (if s.orientation == Vertical then i else 0))
  }

  /** The occupied-coordinate list that add_ship builds with `range(length)`. */
  function Cells(s: Ship): seq<Coord> {
    seq(if s.length < 0 then 0 else s.length, i => CellAt(s, i))
  }

  /** The test attack makes of each ship: does the ship lie over cell c? */
  predicate Covers(s: Ship, c: Coord) {
    || (s.x <= c.x < s.x + s.length && s.y == c.y && s.orientation == Horizontal)
    || (s.y <= c.y < s.y + s.length && s.x == c.x && s.orientation == Vertical)
  }

  /** add_ship's overlap test: some cell of the new ship is a cell of the existing one. */
  predicate Overlaps(existing: Ship, placed: Ship) {
    exists c :: c in Cells(placed) && c in Cells(existing)
  }

  /** The cell list built for placement and the test used by attack agree. */
  lemma CellsAgreeWithCovers(s: Ship, c: Coord)
    ensures c in Cells(s) <==> Covers(s, c)
  {
    if Covers(s, c) {
      var i := if s.orientation == Horizontal then c.x - s.x else c.y - s.y;
      assert Cells(s)[i] == c;
    }
  }

  /** Two ships overlap exactly when some cell lies under both of them. */
  lemma OverlapsIffSharedCell(a: Ship, b: Ship)
    ensures Overlaps(a, b) <==> exists c :: Covers(a, c) && Covers(b, c)
  {
    forall c: Coord
      ensures (c in Cells(a) <==> Covers(a, c)) && (c in Cells(b) <==> Covers(b, c))
    {
      CellsAgreeWithCovers(a, c);
      CellsAgreeWithCovers(b, c);
    }
  }

  /** Damage does not move a ship: its cells depend on its geometry alone. */
  lemma CellsIgnoreDamage(s: Ship, h: int)
    ensures Cells(s.(hits := h)) == Cells(s)
    ensures forall c :: Covers(s.(hits := h), c) == Covers(s, c)
  {
  }
}
