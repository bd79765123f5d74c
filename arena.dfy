/** The arena state store: the occupancy grid, the append-only unit registry, and the
    operations that recruit, move, find and snapshot units. */
module Arena {
  import opened Common
  import opened Pieces
  import opened Snapshots
  import opened Battlefield
  import Movement

  predicate AllValidKinds(units: seq<Unit>) {
    forall i :: 0 <= i < |units| ==> ValidKind(units[i].kind)
  }

  /** The snapshot node of a cell holding `id`. */
  function NodeFor(id: nat, units: seq<Unit>): Node
    requires id <= |units|
  {
    if id > 0 then Node(id, Some(units[id - 1])) else Node(0, None)
  }

  /** The nodes of the cells before `(x, y)` in row-major order. */
  ghost function ScannedNodes(g: Grid, units: seq<Unit>, x: int, y: int): map<Square, Node>
    requires GridValid(g, |units|)
  {
    map cx, cy | 0 <= cy < |g| && 0 <= cx < |g[cy]| && (cy < y || (cy == y && cx < x)) ::
      Square(cx, cy) := NodeFor(Cell(g, Square(cx, cy)), units)
  }

  lemma ScannedStep(g: Grid, units: seq<Unit>, x: int, y: int)
    requires GridValid(g, |units|) && 0 <= y < |g| && 0 <= x < |g[y]|
    ensures ScannedNodes(g, units, x + 1, y) ==
            ScannedNodes(g, units, x, y)[Square(x, y) := NodeFor(Cell(g, Square(x, y)), units)]
  {
  }

  lemma ScannedRow(g: Grid, units: seq<Unit>, y: int)
    requires GridValid(g, |units|) && 0 <= y < |g|
    ensures ScannedNodes(g, units, |g[y]|, y) == ScannedNodes(g, units, 0, y + 1)
  {
  }

  /** The snapshot of grid `g` with registry `units`: one node per square. */
  ghost function GridSnapshot(g: Grid, units: seq<Unit>): Snapshot
    requires GridValid(g, |units|)
  {
    Snapshot(|g[0]|, |g|, ScannedNodes(g, units, 0, |g|))
  }

  /** A snapshot of a valid arena is well formed, has the grid's dimensions, and `get_node`
      returns each cell's id with its registry entry on the board and fails off it. */
  lemma GridSnapshotExact(g: Grid, units: seq<Unit>)
    requires GridValid(g, |units|) && AllValidKinds(units)
    ensures var s := GridSnapshot(g, units);
      WellFormed(s) &&
      (forall sq :: InBounds(s, sq) <==> OnGrid(g, sq)) &&
      (forall sq :: OnGrid(g, sq) ==> At(s, sq) == NodeFor(Cell(g, sq), units)) &&
      (forall x, y :: GetNode(s, x, y) ==
         if OnGrid(g, Square(x, y)) then Ok(NodeFor(g[y][x], units)) else Err(OutOfBounds))
  {
    var s := GridSnapshot(g, units);
    forall sq | sq in s.nodes ensures InBounds(s, sq) && NodeOk(s.nodes[sq]) {
      assert OnGrid(g, sq);
    }
    forall sq ensures InBounds(s, sq) <==> OnGrid(g, sq) {
      if 0 <= sq.y < |g| {
        assert |g[sq.y]| == |g[0]|;
      }
    }
    forall x, y ensures GetNode(s, x, y) ==
      if OnGrid(g, Square(x, y)) then Ok(NodeFor(g[y][x], units)) else Err(OutOfBounds)
    {
      if 0 <= y < |g| {
        assert |g[y]| == |g[0]|;
      }
    }
  }

  /** `retrieve_valid_moves_of_unit` as a value: an empty result for an id never issued, the
      not-on-board error for an issued unit that stands nowhere, and otherwise the moves of
      its rule from its square on a snapshot of the arena. */
  ghost function MovesOfUnit(g: Grid, units: seq<Unit>, id: int): Result<set<Square>>
    requires GridValid(g, |units|) && AllValidKinds(units)
  {
    if !(1 <= id <= |units|) then Ok({})
    else match Locate(g, id)
      case None => Err(NotOnBoard)
      case Some(sq) =>
        LocateExact(g, id);
        GridSnapshotExact(g, units);
        Ok(Movement.Moves(GridSnapshot(g, units), units[id - 1], sq))
  }

  /** The arena never offers a move off the board or onto a square held by the mover's own
      side. */
  lemma MovesOfUnitSafe(g: Grid, units: seq<Unit>, id: int, sq: Square)
    requires GridValid(g, |units|) && AllValidKinds(units)
    requires MovesOfUnit(g, units, id).Ok? && sq in MovesOfUnit(g, units, id).value
    ensures 1 <= id <= |units| && OnGrid(g, sq)
    ensures Cell(g, sq) == 0 || units[Cell(g, sq) - 1].owner != units[id - 1].owner
  {
    var from := Locate(g, id).value;
    LocateExact(g, id);
    GridSnapshotExact(g, units);
    var s := GridSnapshot(g, units);
    Movement.NoSelfCapture(s, units[id - 1], from, sq);
    assert At(s, sq) == NodeFor(Cell(g, sq), units);
  }

  /** A unit captured by a move keeps its id, which stays issued, but it no longer stands
      anywhere: asking for its moves gives the not-on-board error. */
  lemma CapturedUnitOffBoard(g: Grid, units: seq<Unit>, units': seq<Unit>, id: int, sq: Square)
    requires GridValid(g, |units|) && AllValidKinds(units)
    requires |units'| == |units| && AllValidKinds(units')
    requires 1 <= id <= |units| && OnGrid(g, sq) && Cell(g, sq) != 0 && Cell(g, sq) != id
    ensures GridValid(Place(g, id, sq), |units'|)
    ensures 1 <= Cell(g, sq) <= |units'|
    ensures MovesOfUnit(Place(g, id, sq), units', Cell(g, sq)) == Err(NotOnBoard)
  {
    PlaceExact(g, |units|, id, sq);
  }

  /** The king's moves in the arena are computed on a snapshot in which the king itself
      stands on its square, so it blocks every enemy line through that square. */
  lemma KingSeesItself(g: Grid, units: seq<Unit>, id: int)
    requires GridValid(g, |units|) && AllValidKinds(units)
    requires 1 <= id <= |units| && units[id - 1].kind == King && Locate(g, id).Some?
    ensures WellFormed(GridSnapshot(g, units)) && InBounds(GridSnapshot(g, units), Locate(g, id).value)
    ensures At(GridSnapshot(g, units), Locate(g, id).value) == Node(id, Some(units[id - 1]))
    ensures MovesOfUnit(g, units, id) ==
            Ok(Movement.KingMoves(GridSnapshot(g, units), Locate(g, id).value, units[id - 1].owner))
  {
    LocateExact(g, id);
    GridSnapshotExact(g, units);
  }

  class GameArena {
    /** The registry: entry `i` describes the unit with id `i + 1`. Never shrinks. */
    var units: seq<Unit>
    /** The battlefield: `grid[y][x]` is the id on square `(x, y)`, 0 when empty. */
    var grid: Grid

    ghost predicate Valid()
      reads this
    {
      GridValid(grid, |units|) && AllValidKinds(units)
    }

    constructor (width: nat, ranks: nat)
      requires ranks >= 1
      ensures Valid() && units == [] && grid == EmptyGrid(width, ranks)
      ensures forall sq :: OnGrid(grid, sq) ==> Cell(grid, sq) == 0
    {
      units := [];
      grid := EmptyGrid(width, ranks);
      EmptyGridValid(width, ranks);
    }

    /** `size`: the width of the first rank and the number of ranks. */
    function Size(): (r: (int, int))
      reads this
      requires |grid| >= 1
      ensures r.1 == |grid|
      ensures Rectangular(grid) ==> forall y :: 0 <= y < |grid| ==> |grid[y]| == r.0
    {
      (|grid[0]|, |grid|)
    }

    /** `is_valid_unit_id`: the id was issued, captured or not. Every id on the board is one. */
    predicate IsValidUnitId(id: int)
      reads this
      ensures Valid() ==> forall sq :: OnGrid(grid, sq) && Cell(grid, sq) == id && id != 0 ==> IsValidUnitId(id)
    {
      1 <= id <= |units|
    }

    /** `owner_of_unit`: the owner recorded for an issued id; any other id is an error. */
    function OwnerOf(id: int): (r: Result<nat>)
      reads this
      ensures r.Ok? <==> 1 <= id <= |units|
      ensures r.Ok? ==> r.value == units[id - 1].owner
      ensures r.Err? ==> r.error == InvalidUnitId
    {
      if !IsValidUnitId(id) then Err(InvalidUnitId) else Ok(units[id - 1].owner)
    }

    /** `new_unit_recruited_by_player`: appends the unit (not yet moved) to the registry and
        takes the registry length as its id; then, when a square is given, checks it and
        writes the id there. An off-board square fails AFTER the registry has grown. */
    method Recruit(owner: nat, square: Option<Square>, kind: Kind) returns (r: Result<nat>)
      requires Valid() && ValidKind(kind)
      modifies this
      ensures Valid()
      ensures units == old(units) + [Unit(owner, false, kind)]
      ensures forall i :: IsValidUnitId(i) <==> old(IsValidUnitId(i)) || i == |units|
      ensures square.None? ==> r == Ok(|units|) && grid == old(grid)
      ensures square.Some? && !OnGrid(old(grid), square.value) ==> r == Err(OutOfBounds) && grid == old(grid)
      ensures square.Some? && OnGrid(old(grid), square.value) ==>
                r == Ok(|units|) && grid == SetCell(old(grid), square.value, |units|) &&
                Locate(grid, |units|) == Some(square.value)
    {
      units := units + [Unit(owner, false, kind)];
      var unitId := |units|;
      if square.Some? {
        var x, y := square.value.x, square.value.y;
        var (xmax, ymax) := Size();
        if x < 0 || y < 0 || x >= xmax || y >= ymax {
          assert !OnGrid(grid, square.value);
          return Err(OutOfBounds);
        }
        assert |grid[y]| == |grid[0]|;
        RecruitExact(grid, unitId - 1, square.value);
        grid := SetCell(grid, square.value, unitId);
      }
      r := Ok(unitId);
    }

    /** `find_square_from_unit_id`: an id never issued is an error; otherwise a row-major scan
        returns the first square holding the id, or the not-on-board error. */
    method FindSquare(id: int) returns (r: Result<Square>)
      requires Valid()
      ensures !IsValidUnitId(id) ==> r == Err(InvalidUnitId)
      ensures IsValidUnitId(id) ==> r == match Locate(grid, id)
                                          case Some(sq) => Ok(sq)
                                          case None => Err(NotOnBoard)
      ensures r.Ok? ==> OnGrid(grid, r.value) && Cell(grid, r.value) == id &&
                        forall c :: OnGrid(grid, c) && RowMajorBefore(c, r.value) ==> Cell(grid, c) != id
      ensures r == Err(NotOnBoard) <==> IsValidUnitId(id) && forall c :: OnGrid(grid, c) ==> Cell(grid, c) != id
    {
      if !IsValidUnitId(id) {
        return Err(InvalidUnitId);
      }
      LocateExact(grid, id);
      for y := 0 to |grid|
        invariant Locate(grid, id) == LocateFrom(grid, id, 0, y)
      {
        var rank := grid[y];
        for x := 0 to |rank|
          invariant Locate(grid, id) == LocateFrom(grid, id, x, y)
        {
          if id == rank[x] {
            return Ok(Square(x, y));
          }
        }
      }
      return Err(NotOnBoard);
    }

    /** `is_occupied_square`: false off the board (no error), otherwise whether some issued
        unit is found on the square. */
    predicate IsOccupied(sq: Square)
      reads this
      requires Valid()
      ensures !OnGrid(grid, sq) ==> !IsOccupied(sq)
      ensures IsOccupied(sq) <==> exists id :: 1 <= id <= |units| && Locate(grid, id) == Some(sq)
    {
      OccupiedExact(grid, |units|, sq);
      var (xmax, ymax) := Size();
      if sq.x < 0 || sq.y < 0 || sq.x >= xmax || sq.y >= ymax then false
      else
        assert |grid[sq.y]| == |grid[0]|;
        grid[sq.y][sq.x] > 0
    }

    /** `__place_unit_on_square`: clears the unit's current square if the scan finds one, then
        writes the id on `sq`. */
    method PlaceUnit(id: int, sq: Square)
      requires Valid() && IsValidUnitId(id) && OnGrid(grid, sq)
      modifies this
      ensures units == old(units) && grid == Place(old(grid), id, sq)
    {
      var before := FindSquare(id);
      if before.Ok? {
        SetCellShape(grid, before.value, 0);
        grid := SetCell(grid, before.value, 0);
      }
      grid := SetCell(grid, sq, id);
    }

    /** `move_unit_to_somewhere`: an id never issued or an off-board square fails with nothing
        changed; otherwise the unit is placed on `sq` unconditionally (capturing whatever stood
        there, of either side) and marked as moved. */
    method MoveUnit(id: int, sq: Square) returns (r: Outcome)
      requires Valid()
      modifies this
      ensures Valid()
      ensures forall i :: IsValidUnitId(i) <==> old(IsValidUnitId(i))
      ensures !old(IsValidUnitId(id)) ==> r == Fail(InvalidUnitId) && grid == old(grid) && units == old(units)
      ensures old(IsValidUnitId(id)) && !OnGrid(old(grid), sq) ==>
                r == Fail(OutOfBounds) && grid == old(grid) && units == old(units)
      ensures old(IsValidUnitId(id)) && OnGrid(old(grid), sq) ==>
                r == Pass && grid == Place(old(grid), id, sq) &&
                units == old(units)[id - 1 := old(units)[id - 1].(hasMoved := true)]
    {
      if !IsValidUnitId(id) {
        return Fail(InvalidUnitId);
      }
      var x, y := sq.x, sq.y;
      var (xmax, ymax) := Size();
      if x < 0 || y < 0 || x >= xmax || y >= ymax {
        assert !OnGrid(grid, sq);
        return Fail(OutOfBounds);
      }
      assert |grid[y]| == |grid[0]|;
      PlaceExact(grid, |units|, id, sq);
      PlaceUnit(id, sq);
      units := units[id - 1 := units[id - 1].(hasMoved := true)];
      r := Pass;
    }

    /** `__take_snapshot`: one node per square, filled rank by rank through a builder. */
    method TakeSnapshot() returns (s: Snapshot)
      requires Valid()
      ensures s == GridSnapshot(grid, units)
    {
      var (xmax, ymax) := Size();
      var builder := new SnapshotBuilder(xmax, ymax);
      for y := 0 to |grid|
        invariant builder.xmax == xmax && builder.ymax == ymax
        invariant builder.nodes == ScannedNodes(grid, units, 0, y)
      {
        var rank := grid[y];
        assert |rank| == xmax;
        for x := 0 to |rank|
          invariant builder.nodes == ScannedNodes(grid, units, x, y)
        {
          var unitId := rank[x];
          assert unitId == Cell(grid, Square(x, y));
          var unit := if unitId > 0 then Some(units[unitId - 1]) else None;
          ScannedStep(grid, units, x, y);
          var outcome := builder.SetNode(x, y, unitId, unit);
          assert outcome == Pass;
        }
        ScannedRow(grid, units, y);
      }
      s := builder.Snap();
    }

    /** `retrieve_valid_moves_of_unit`: an empty result for an id never issued; for an issued
        unit the square scan runs first, so an unplaced unit gets the not-on-board error;
        otherwise the unit's rule is evaluated on a fresh snapshot. */
    method RetrieveValidMovesOfUnit(id: int) returns (r: Result<set<Square>>)
      requires Valid()
      ensures r == MovesOfUnit(grid, units, id)
    {
      if !IsValidUnitId(id) {
        return Ok({});
      }
      var square := FindSquare(id);
      if square.Err? {
        return Err(square.error);
      }
      var unit := units[id - 1];
      var snapshot := TakeSnapshot();
      GridSnapshotExact(grid, units);
      var moves := Movement.RetrieveValidMoves(snapshot, unit, square.value);
      r := Ok(moves);
    }
  }

  /** A square is occupied exactly when some issued unit is found on it. */
  lemma OccupiedExact(g: Grid, count: nat, sq: Square)
    requires GridValid(g, count)
    ensures OnGrid(g, sq) && Cell(g, sq) != 0 <==> exists id :: 1 <= id <= count && Locate(g, id) == Some(sq)
  {
    if OnGrid(g, sq) && Cell(g, sq) != 0 {
      LocateUnique(g, count, Cell(g, sq), sq);
    }
    if exists id :: 1 <= id <= count && Locate(g, id) == Some(sq) {
      var id :| 1 <= id <= count && Locate(g, id) == Some(sq);
      LocateExact(g, id);
    }
  }
}
