/** Shared value types of the arena engine: board coordinates, direction vectors and
    the error kinds that the arena raises (all `ValueError` in the source, told apart
    here by the situation each message describes). */
module Common {

  datatype Option<T> = None | Some(value: T)

  /** The three failure situations of the arena: an id that was never issued, a square
      outside the board, and a unit that is not currently on the board. */
  datatype Error = InvalidUnitId | OutOfBounds | NotOnBoard

  datatype Result<T> = Ok(value: T) | Err(error: Error)

  datatype Outcome = Pass | Fail(error: Error)

  /** A board coordinate: `x` is the file (column), `y` the rank (row). */
  datatype Square = Square(x: int, y: int)

  /** A movement direction. */
  datatype Vector = Vector(dx: int, dy: int)

  /** One step from `sq` along `d`. */
  function Shift(sq: Square, d: Vector): Square {
    Square(sq.x + d.dx, sq.y + d.dy)
  }

  /** The square `k` steps from `origin` along `d`, that is `origin + k·d`. */
  function Along(origin: Square, d: Vector, k: int): Square {
    Square(origin.x + k * d.dx, origin.y + k * d.dy)
  }

  lemma AlongStep(origin: Square, d: Vector, k: int)
    requires k >= 0
    ensures Shift(Along(origin, d, k), d) == Along(origin, d, k + 1)
  {
    assert (k + 1) * d.dx == k * d.dx + d.dx;
    assert (k + 1) * d.dy == k * d.dy + d.dy;
  }

  /** `k` steps along `d` from the square one step along it are `k + 1` steps from `origin`. */
  lemma {:induction false} AlongShift(origin: Square, d: Vector, k: int)
    requires k >= 0
    ensures Along(Shift(origin, d), d, k) == Along(origin, d, k + 1)
    decreases k
  {
    assert (k + 1) * d.dx == k * d.dx + d.dx;
    assert (k + 1) * d.dy == k * d.dy + d.dy;
  }
}
