/** The arena's occupancy grid as a value: `g[y][x]` is the id of the unit on square `(x, y)`,
    0 when it is empty. The arena class keeps one such grid and replaces it on every change;
    the functions here say what each change does and the lemmas what it preserves. */
module Battlefield {
  import opened Common

  type Grid = seq<seq<nat>>

  predicate OnGrid(g: Grid, sq: Square) {
    0 <= sq.y < |g| && 0 <= sq.x < |g[sq.y]|
  }

  function Cell(g: Grid, sq: Square): nat
    requires OnGrid(g, sq)
  {
    g[sq.y][sq.x]
  }

  function SetCell(g: Grid, sq: Square, id: nat): Grid
    requires OnGrid(g, sq)
  {
    var row: seq<nat> := g[sq.y][sq.x := id];
    g[sq.y := row]
  }

  /** At least one rank, and every rank as wide as the first. */
  ghost predicate Rectangular(g: Grid) {
    |g| >= 1 && forall y :: 0 <= y < |g| ==> |g[y]| == |g[0]|
  }

  /** The board invariant: every cell is 0 or an issued id (`1..count`), and each nonzero id
      stands on at most one cell. */
  ghost predicate GridValid(g: Grid, count: nat) {
    Rectangular(g) &&
    (forall sq :: OnGrid(g, sq) ==> Cell(g, sq) <= count) &&
    (forall a, b :: OnGrid(g, a) && OnGrid(g, b) && Cell(g, a) != 0 && Cell(g, a) == Cell(g, b) ==> a == b)
  }

  /** The all-empty `width × ranks` grid the arena starts from. */
  function EmptyGrid(width: nat, ranks: nat): (g: Grid)
    ensures |g| == ranks && forall y :: 0 <= y < ranks ==> |g[y]| == width
  {
    seq(ranks, _ => seq(width, _ => 0))
  }

  lemma EmptyGridValid(width: nat, ranks: nat)
    requires ranks >= 1
    ensures GridValid(EmptyGrid(width, ranks), 0)
    ensures forall sq :: OnGrid(EmptyGrid(width, ranks), sq) ==> Cell(EmptyGrid(width, ranks), sq) == 0
  {
  }

  /** Row-major search for `id` from cell `(x, y)` on, as `find_square_from_unit_id` scans. */
  function LocateFrom(g: Grid, id: nat, x: nat, y: nat): Option<Square>
    decreases |g| - y, if y < |g| then |g[y]| - x else 0
  {
    if y >= |g| then None
    else if x >= |g[y]| then LocateFrom(g, id, 0, y + 1)
    else if g[y][x] == id then Some(Square(x, y))
    else LocateFrom(g, id, x + 1, y)
  }

  /** The first cell holding `id` in row-major order, if any. */
  function Locate(g: Grid, id: nat): Option<Square> {
    LocateFrom(g, id, 0, 0)
  }

  ghost predicate RowMajorBefore(a: Square, b: Square) {
    a.y < b.y || (a.y == b.y && a.x < b.x)
  }

  lemma {:induction false} LocateFromExact(g: Grid, id: nat, x: nat, y: nat)
    ensures var r := LocateFrom(g, id, x, y);
      (r.Some? ==> OnGrid(g, r.value) && Cell(g, r.value) == id && !RowMajorBefore(r.value, Square(x, y)) &&
                   forall c :: OnGrid(g, c) && !RowMajorBefore(c, Square(x, y)) && RowMajorBefore(c, r.value) ==>
                               Cell(g, c) != id) &&
      (r.None? ==> forall c :: OnGrid(g, c) && !RowMajorBefore(c, Square(x, y)) ==> Cell(g, c) != id)
    decreases |g| - y, if y < |g| then |g[y]| - x else 0
  {
    if y >= |g| {
    } else if x >= |g[y]| {
      LocateFromExact(g, id, 0, y + 1);
    } else if g[y][x] == id {
    } else {
      LocateFromExact(g, id, x + 1, y);
    }
  }

  /** `Locate` finds the first cell holding `id` in row-major order, and fails only when no
      cell holds it. */
  lemma LocateExact(g: Grid, id: nat)
    ensures Locate(g, id).Some? ==>
              OnGrid(g, Locate(g, id).value) && Cell(g, Locate(g, id).value) == id &&
              forall c :: OnGrid(g, c) && RowMajorBefore(c, Locate(g, id).value) ==> Cell(g, c) != id
    ensures Locate(g, id).None? <==> forall c :: OnGrid(g, c) ==> Cell(g, c) != id
  {
    LocateFromExact(g, id, 0, 0);
    if Locate(g, id).Some? {
      var sq := Locate(g, id).value;
      assert OnGrid(g, sq) && Cell(g, sq) == id;
    }
  }

  /** On a valid grid a nonzero id is found exactly where it stands. */
  lemma LocateUnique(g: Grid, count: nat, id: nat, sq: Square)
    requires GridValid(g, count) && id != 0 && OnGrid(g, sq) && Cell(g, sq) == id
    ensures Locate(g, id) == Some(sq)
  {
    LocateExact(g, id);
  }

  /** `__place_unit_on_square`: clear the unit's current square, if it has one, then write its
      id on `sq`, overwriting whatever stood there. */
  function Place(g: Grid, id: nat, sq: Square): Grid
    requires OnGrid(g, sq)
  {
    var cleared := match Locate(g, id)
      case Some(p) => if OnGrid(g, p) then SetCell(g, p, 0) else g
      case None => g;
    if OnGrid(cleared, sq) then SetCell(cleared, sq, id) else cleared
  }

  lemma SetCellShape(g: Grid, sq: Square, id: nat)
    requires OnGrid(g, sq)
    ensures |SetCell(g, sq, id)| == |g|
    ensures forall y :: 0 <= y < |g| ==> |SetCell(g, sq, id)[y]| == |g[y]|
    ensures forall c :: OnGrid(g, c) <==> OnGrid(SetCell(g, sq, id), c)
    ensures forall c :: OnGrid(g, c) ==> Cell(SetCell(g, sq, id), c) == if c == sq then id else Cell(g, c)
  {
  }

  /** What a move does to the grid: the destination holds the moved id, the square it left
      (if any, and if different) is empty, the unit that stood on the destination (if any,
      and if different) is off the board, every other cell is unchanged, and the board
      invariant still holds. */
  lemma PlaceExact(g: Grid, count: nat, id: nat, sq: Square)
    requires GridValid(g, count) && 1 <= id <= count && OnGrid(g, sq)
    ensures var g' := Place(g, id, sq);
      GridValid(g', count) &&
      (forall c :: OnGrid(g, c) <==> OnGrid(g', c)) &&
      Cell(g', sq) == id &&
      Locate(g', id) == Some(sq) &&
      (forall p :: Locate(g, id) == Some(p) && p != sq ==> OnGrid(g', p) && Cell(g', p) == 0) &&
      (Cell(g, sq) != 0 && Cell(g, sq) != id ==> Locate(g', Cell(g, sq)) == None) &&
      (forall c :: OnGrid(g, c) && c != sq && Some(c) != Locate(g, id) ==> Cell(g', c) == Cell(g, c))
  {
    LocateExact(g, id);
    var cleared := match Locate(g, id)
      case Some(p) => if OnGrid(g, p) then SetCell(g, p, 0) else g
      case None => g;
    if Locate(g, id).Some? {
      SetCellShape(g, Locate(g, id).value, 0);
    }
    assert forall c :: OnGrid(g, c) <==> OnGrid(cleared, c);
    assert forall c :: OnGrid(g, c) ==> Cell(cleared, c) == if Some(c) == Locate(g, id) then 0 else Cell(g, c);
    assert forall c :: OnGrid(cleared, c) ==> Cell(cleared, c) != id;
    SetCellShape(cleared, sq, id);
    var g' := Place(g, id, sq);
    assert g' == SetCell(cleared, sq, id);
    assert Rectangular(g');
    forall a, b | OnGrid(g', a) && OnGrid(g', b) && Cell(g', a) != 0 && Cell(g', a) == Cell(g', b)
      ensures a == b
    {
      if a != sq && b != sq {
        assert Cell(g, a) == Cell(cleared, a) && Cell(g, b) == Cell(cleared, b);
      }
    }
    LocateUnique(g', count, id, sq);
    var o := Cell(g, sq);
    if o != 0 && o != id {
      assert forall c :: OnGrid(g', c) ==> Cell(g', c) != o;
      LocateExact(g', o);
    }
  }

  /** Recruiting id `count + 1` onto `sq` keeps the board invariant, and the new unit is then
      found on `sq`. */
  lemma RecruitExact(g: Grid, count: nat, sq: Square)
    requires GridValid(g, count) && OnGrid(g, sq)
    ensures GridValid(SetCell(g, sq, count + 1), count + 1)
    ensures Locate(SetCell(g, sq, count + 1), count + 1) == Some(sq)
  {
    var g' := SetCell(g, sq, count + 1);
    SetCellShape(g, sq, count + 1);
    assert Rectangular(g');
    forall a, b | OnGrid(g', a) && OnGrid(g', b) && Cell(g', a) != 0 && Cell(g', a) == Cell(g', b)
      ensures a == b
    {
      if a != sq && b != sq {
        assert Cell(g, a) == Cell(g', a) && Cell(g, b) == Cell(g', b);
      }
    }
    LocateUnique(g', count + 1, count + 1, sq);
  }
}
