/** Units and the closed family of movement rules they carry. */
module Pieces {
  import opened Common

  /** The movement rule of a unit.
      - `Pawn(forward)`: a pawn advancing along `Vector(0, forward)`.
      - `Walker(dirs, limit)`: a straight-moving-and-attacking unit that walks each vector of
        `dirs` up to `limit` steps, or without bound when `limit <= 0`.
      - `King`: the one-step walker over the eight neighbours, with the king-safety filter. */
  datatype Kind = Pawn(forward: int) | Walker(dirs: seq<Vector>, limit: int) | King

  /** A registry entry: the owning player, whether the unit has been moved, and its rule. */
  datatype Unit = Unit(owner: nat, hasMoved: bool, kind: Kind)

  const ROOK_DIRS: seq<Vector> := [Vector(1, 0), Vector(0, 1), Vector(-1, 0), Vector(0, -1)]
  const BISHOP_DIRS: seq<Vector> := [Vector(1, 1), Vector(-1, 1), Vector(-1, -1), Vector(1, -1)]
  const QUEEN_DIRS: seq<Vector> :=
    [Vector(1, 0), Vector(1, 1), Vector(0, 1), Vector(-1, 1),
     Vector(-1, 0), Vector(-1, -1), Vector(0, -1), Vector(1, -1)]
  /** The king walks the same eight vectors as the queen, one step at most. */
  const KING_DIRS: seq<Vector> := QUEEN_DIRS
  const KNIGHT_DIRS: seq<Vector> :=
    [Vector(2, 1), Vector(1, 2), Vector(-1, 2), Vector(-2, 1),
     Vector(-2, -1), Vector(-1, -2), Vector(1, -2), Vector(2, -1)]

  const WHITE_PAWN: Kind := Pawn(1)
  const BLACK_PAWN: Kind := Pawn(-1)
  const ROOK: Kind := Walker(ROOK_DIRS, 0)
  const BISHOP: Kind := Walker(BISHOP_DIRS, 0)
  const QUEEN: Kind := Walker(QUEEN_DIRS, 0)
  const KNIGHT: Kind := Walker(KNIGHT_DIRS, 1)

  /** No direction vector is the zero vector (an unlimited walk along it would not end). */
  predicate NonZero(dirs: seq<Vector>) {
    forall i :: 0 <= i < |dirs| ==> dirs[i] != Vector(0, 0)
  }

  /** The rules the engine supports: walkers never stand still. A pawn carries only its rank
      direction (its file direction is 0), with any value. */
  predicate ValidKind(k: Kind) {
    match k
    case Pawn(_) => true
    case Walker(dirs, _) => NonZero(dirs)
    case King => true
  }
}
