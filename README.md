# Game arena: a verified model

`gamearena.py` is the engine behind a small chess-like board game. It has two halves:

- **The arena** (`GameArena`). It keeps a `width × ranks` grid of unit ids, where 0 means an empty square. It also keeps an append-only registry of units: entry `i` describes the unit with id `i + 1`. Its operations recruit a unit, move a unit, validate ids, find a unit's square, test a square for occupancy, and take a read-only snapshot of the board.
- **The movement rules.** Each rule maps a unit's square and a snapshot to two things: the squares the unit may move to, and its *shooting range*, the squares it could capture into.
  - A *walker* walks each of its direction vectors up to a step limit (no limit when the limit is 0 or less). It stops at the board edge and stops at the first occupied square, which it keeps. The rook, bishop, queen and knight are walkers.
  - The king is the one-step walker over its eight neighbours. It then loses every square that an enemy on the same snapshot could shoot at.
  - A pawn advances one square, or two before its first move, and captures diagonally forward.

This project restates all of that in Dafny and proves what each operation guarantees.

Modules:

- `Common` holds squares, vectors and the error kinds.
- `Pieces` holds units and the closed family of rules: `Pawn(forward)`, `Walker(dirs, limit)` and `King`. Rook, bishop, queen and knight are the constants `ROOK`, `BISHOP`, `QUEEN` and `KNIGHT`, with the source's direction lists and limits.
- `Snapshots` holds the snapshot value and its builder class.
- `Movement` holds the rules. Each is a recursive specification function, a lemma saying what it computes, and a method with the source's loops proved equal to the function.
- `Battlefield` holds the grid as a value: `Locate` is the row-major search and `Place` is the grid change a move makes. Lemmas here prove the board invariant.
- `Arena` holds the `GameArena` class. Its `grid` and `units` fields are reassigned by its methods, and its `Valid()` invariant is the board invariant.
- `SelfTest` holds the module's own self-test as a verified scenario, plus the knight examples.

Where the arena raises `ValueError`, the model returns a `Result`/`Outcome` error. The error is one of three kinds, each matching one situation the messages describe:

- `InvalidUnitId`: the id was never issued.
- `OutOfBounds`: the square is off the board.
- `NotOnBoard`: the unit is not currently on the board.

The board invariant (`GridValid`) has two parts:

- every cell is 0 or an issued id;
- each nonzero id stands on at most one cell.

The empty grid establishes it, and recruiting and moving preserve it.

The model follows the code in these places:

- `retrieve_valid_moves_of_unit` returns an empty result only for an id that was never issued. For an issued unit that is not on the board, the square search's error passes through (`Arena.MovesOfUnit`).
- Recruiting onto an off-board square appends the unit to the registry *before* the bounds check fails. The registry therefore grows while the grid stays unchanged (`Arena.GameArena.Recruit`).
- The pawn's forward loop does not leave on an occupied square. It spends a step on that square again without advancing, so no later square is offered. `Movement.Advance` models this literally, and `Movement.AdvanceExact` proves it equals "stop at the first occupied square".
- The pawn's diagonals are visited in the order in which CPython iterates the set `{-1, 1}`: `x + 1` first, then `x - 1`.
- The king's safety filter uses the snapshot that still has the king on its square. An enemy line through the king is therefore blocked by the king itself. `Arena.KingSeesItself` shows the king on its square in the snapshot its moves are computed on, and `Movement.KingMovesExact` characterises those moves.

## Model

| member | source | states |
|---|---|---|
| Snapshots.At | gamearena.py:184-189 | An on-board cell of a well-formed snapshot is consistent: id 0 has no unit, any other id has one with a supported rule. |
| Snapshots.GetNode | gamearena.py:184-191 | On a well-formed snapshot `get_node` succeeds exactly on the board. It returns the stored cell there, or an empty node for an unstored one, and fails off the board with the out-of-bounds error. |
| Snapshots.SnapshotBuilder.constructor | gamearena.py:199-202 | A builder starts with the given dimensions and no cells. |
| Snapshots.SnapshotBuilder.SetNode | gamearena.py:208-212 | An on-board cell is recorded and nothing else changes. An off-board one fails with the out-of-bounds error and changes nothing. |
| Snapshots.SnapshotBuilder.Snap | gamearena.py:204-206 | The snapshot has the builder's dimensions, and every recorded on-board cell reads back as recorded. |
| Movement.Ray | gamearena.py:346-358 | Every square the walk keeps is on the board, and every kept square before the last is empty. |
| Movement.RayExact | gamearena.py:341-358 | From any step on, the walk keeps exactly the steps that are reached: on the board, within the limit, with only empty squares before them. |
| Movement.WalkExact | gamearena.py:341-358 | The walk along `d` is exactly `origin + 1·d, …, origin + n·d`. Each of these is on the board, within the step limit and preceded only by empty squares, and no later step qualifies. |
| Movement.WalkStops | gamearena.py:346-356 | The walk ends for one of three reasons: the step limit is used up, the next square is off the board, or the last kept square is occupied. |
| Movement.WalkAll | gamearena.py:340-360 | Every square of the combined shooting range is on the board. |
| Movement.WalkAllMembers | gamearena.py:340-360 | A square is in the combined range if and only if it is on the walk of one of the direction vectors. |
| Movement.ShootingRangeExact | gamearena.py:333-360 | A walker's shooting range is exactly the set of squares `origin + k·dirs[i]` whose step `k` is reached. |
| Movement.KeepMembers | gamearena.py:325-331 | The filter keeps exactly the squares of its input that are empty or enemy-held. |
| Movement.WalkerMovesExact | gamearena.py:318-331 | A walker may move to a square if and only if the square is on one of its rays, on the board, and empty or enemy-held. |
| Movement.AdvanceBlocked | gamearena.py:251-258 | Once the pawn's forward loop meets an occupied square, it yields nothing more. |
| Movement.AdvanceExact | gamearena.py:249-258 | The forward loop yields consecutive squares along `(0, dy)`, all empty, no more than its remaining steps. A short result means the next square is occupied or off the board. |
| Movement.PawnForwardExact | gamearena.py:244-259 | The pawn's forward squares are `origin + 1·(0, dy), …`, all empty, at most two before its first move and one after. It stops early only at an occupied or off-board square. |
| Movement.PawnShootingRange | gamearena.py:276-290 | A pawn's shooting range is exactly the on-board squares `(x ± 1, y + dy)`, whatever stands there, at most two of them. |
| Movement.HostilesMembers | gamearena.py:264-272 | The capture filter keeps exactly the squares of its input that hold a unit of another owner. |
| Movement.PawnMovesExact | gamearena.py:234-274 | A pawn may move to a square if and only if it is a forward square, or a forward diagonal on the board holding a unit of another owner. |
| Movement.ThreatsBeforeExact | gamearena.py:423-430 | After the row-major scan up to a cell, the removed squares are exactly those some enemy on an earlier cell could shoot at. |
| Movement.KingMovesExact | gamearena.py:412-432 | A king may move to a square if and only if it is one of its one-step walker moves and no enemy on the same snapshot could shoot at it. |
| Movement.KingStepsOnce | gamearena.py:402-432 | Every king move is a single step along one of the eight king vectors, onto an on-board square that is empty or enemy-held. |
| Movement.NoSelfCapture | gamearena.py:234-432 | Whatever its rule, a unit is never offered an off-board square or a square held by its own side. |
| Movement.WalkDirection | gamearena.py:341-358 | The loop for one direction returns exactly the specified walk. |
| Movement.StraightShootingRange | gamearena.py:333-360 | The loop over all direction vectors returns exactly the concatenated walks, in vector order. |
| Movement.StraightValidMoves | gamearena.py:318-331 | The walker's move loop returns exactly the filtered shooting range, in order. |
| Movement.PawnShootingSquares | gamearena.py:276-290 | The pawn's diagonal loop returns exactly the specified shooting range, in the source's visiting order. |
| Movement.PawnAdvance | gamearena.py:244-259 | The pawn's forward loop returns exactly the specified forward squares. |
| Movement.PawnValidMoves | gamearena.py:234-274 | The pawn's move loops return exactly the forward squares followed by the enemy-held diagonals. |
| Movement.ShootingRangeOf | gamearena.py:429 | The shooting range of any unit, dispatched on its rule, is exactly the specified threat range. |
| Movement.KingValidMoves | gamearena.py:412-432 | The king's nested scan returns exactly its one-step moves minus every enemy's shooting range. |
| Movement.RetrieveValidMoves | gamearena.py:129 | Dispatching on the unit's rule returns exactly that rule's moves. |
| Battlefield.EmptyGrid | gamearena.py:35 | The initial grid has `ranks` ranks of `width` cells. |
| Battlefield.EmptyGridValid | gamearena.py:33-35 | The all-zero grid satisfies the board invariant with no ids issued, and every cell is empty. |
| Battlefield.LocateFromExact | gamearena.py:139-144 | A row-major scan from a cell returns the first later cell holding the id, or none when no later cell holds it. |
| Battlefield.LocateExact | gamearena.py:131-144 | The search returns the first cell in row-major order that holds the id, and fails exactly when no cell holds it. |
| Battlefield.LocateUnique | gamearena.py:131-144 | On a valid grid a nonzero id is found exactly where it stands. |
| Battlefield.SetCellShape | gamearena.py:89-91 | Writing one cell keeps the grid's shape and changes that cell only. |
| Battlefield.PlaceExact | gamearena.py:76-91 | After a move: the destination holds the id and the id is found there; its old square, if different, is empty; the destination's former occupant is off the board; every other cell is unchanged; the invariant still holds. |
| Battlefield.RecruitExact | gamearena.py:62-67 | Writing the new id `count + 1` on an on-board square keeps the invariant, and the new unit is found there. |
| Arena.GridSnapshotExact | gamearena.py:153-191 | The snapshot of a valid arena is well formed and has the grid's size. Each on-board cell holds the grid's id with its registry entry, and `get_node` fails off the board. |
| Arena.MovesOfUnitSafe | gamearena.py:117-129 | A move the arena offers is for an issued unit, lands on the board, and never lands on a square held by the mover's own side. |
| Arena.CapturedUnitOffBoard | gamearena.py:93-129 | A unit captured by a move keeps an issued id but stands nowhere, so asking for its moves gives the not-on-board error. |
| Arena.KingSeesItself | gamearena.py:124-129 | An arena king's moves are the king rule evaluated from its square on a snapshot in which that square holds the king itself. |
| Arena.OccupiedExact | gamearena.py:146-151 | A square is occupied exactly when some issued unit is found on it. |
| Arena.GameArena.constructor | gamearena.py:27-35 | A new arena has an empty registry and an all-zero `width × ranks` grid, and satisfies the invariant. |
| Arena.GameArena.Size | gamearena.py:37-46 | The reported rank count is the number of ranks, and on a rectangular grid every rank has the reported width, so the pair bounds exactly the on-board squares. |
| Arena.GameArena.IsValidUnitId | gamearena.py:108-115 | Every id standing on the board of a valid arena is a valid id. Recruiting extends the valid range by the new id, and moving keeps it, so a captured unit's id stays valid (see `Recruit` and `MoveUnit`). |
| Arena.GameArena.OwnerOf | gamearena.py:71-74 | The owner is returned exactly for an issued id. Any other id is the invalid-id error. |
| Arena.GameArena.Recruit | gamearena.py:48-69 | The unit is appended unmoved and gets the new registry length as its id, which becomes the one new valid id. With an on-board square, that square holds the id and the unit is found there. With an off-board square, the result is the out-of-bounds error and the grid is unchanged, but the registry has grown. The invariant holds afterwards. |
| Arena.GameArena.FindSquare | gamearena.py:131-144 | The result is the invalid-id error for an id never issued. Otherwise it is the first cell in row-major order holding the id, or the not-on-board error exactly when no cell holds it. |
| Arena.GameArena.IsOccupied | gamearena.py:146-151 | The result is false, without error, off the board. Otherwise it is true exactly when an issued unit is found on the square. |
| Arena.GameArena.PlaceUnit | gamearena.py:76-91 | The unit's current square, if any, is cleared and the id is written on the destination. The registry is untouched. |
| Arena.GameArena.MoveUnit | gamearena.py:93-106 | An id never issued, or an off-board square, fails with nothing changed. Otherwise the grid becomes `Place(grid, id, sq)`, only that unit is marked as moved, and the invariant holds. The set of valid ids never changes. |
| Arena.GameArena.TakeSnapshot | gamearena.py:153-165 | The scan through the builder yields exactly the specified snapshot of the grid and registry. |
| Arena.GameArena.RetrieveValidMovesOfUnit | gamearena.py:117-129 | The result is the empty result for an id never issued. For an issued unit not on the board, it is the not-on-board error. Otherwise it is exactly the unit's rule evaluated from its square on a fresh snapshot. |
| SelfTest.OneStepOnEmptyBoard | gamearena.py:435-443 | On an empty board a one-step walker may move exactly to the single steps that stay on the board. |
| SelfTest.KnightInCorner | gamearena.py:435-443 | A knight in the corner of an empty 8 × 8 board has exactly the two moves `(2, 1)` and `(1, 2)`. |
| SelfTest.KnightOpenMoves | gamearena.py:435-443 | A knight on `(3, 3)` of an empty 8 × 8 board may move exactly to its eight knight steps. |
| SelfTest.KnightInTheOpen | gamearena.py:435-443 | A knight on `(3, 3)` of an empty 8 × 8 board has eight moves. |
| SelfTest.SelfTestPawn | gamearena.py:470-472 | The unmoved white pawn on `(0, 1)`, with its squares ahead empty, gets exactly `(0, 2)` then `(0, 3)`, so the self-test's `m[1]` is the double step. |
| SelfTest.SelfTestRook | gamearena.py:474-476 | The rook on `(0, 0)`, with an empty first rank and its own pawn on `(0, 3)`, may move to `(1..7, 0)`, `(0, 1)` and `(0, 2)` and nowhere else. |
| SelfTest.SelfTestPawnRule | gamearena.py:470 | Through the rule dispatch, the same pawn gets the set `{(0, 2), (0, 3)}`. |
| SelfTest.OpeningPawnMoves | gamearena.py:458-470 | In the opening position the arena offers the a-pawn exactly `(0, 2)` and `(0, 3)`. |
| SelfTest.ChargeThenRook | gamearena.py:472-474 | The a-pawn's double step followed by the rook's recruitment on `(0, 0)` gives the board the rook query sees. |
| SelfTest.RookMovesAfterCharge | gamearena.py:474-475 | On that board the arena offers the rook exactly the first rank and `(0, 1)`, `(0, 2)`. |
| SelfTest.RecruitPawns | gamearena.py:458-469 | Recruiting a white pawn on rank 1 and a black pawn on rank 6 of every file gives ids 1 to 16, alternately white and black, and both pawn ranks full. |
| SelfTest.OpeningPhase | gamearena.py:470-473 | The a-pawn is offered `{(0, 2), (0, 3)}` and its move to `(0, 3)` succeeds. |
| SelfTest.RookPhase | gamearena.py:474-475 | The rook gets id 17 and is offered the first rank plus `(0, 1)` and `(0, 2)`. |
| SelfTest.SelfTestScenario | gamearena.py:446-476 | The whole self-test on a fresh 8 × 8 arena yields exactly these results. |

## Left out

- `gamegui.py` is not part of this model. It holds the window, the camera, mouse picking and model loading, all through a graphics library.
- The self-test's printing to standard output is not modelled. Its scenario is modelled and its results are proved.
- The Python plumbing is replaced:
  - the abstract base class, the `PlayerID`/`UnitID` integer subclasses and the named tuples become plain integers and datatypes;
  - constructing a unit from a runtime class becomes the closed `Kind` datatype.
- `retrieve_valid_moves_of_unit` returns an empty dict `{}` for an id never issued. It is modelled as the empty set of moves.
- The order of results is modelled only where the source fixes it:
  - walker and pawn moves are sequences in the source's order;
  - the king's moves and the dispatched results are sets, because the king builds its tuple from a Python set.
- En passant, castling, promotion, check and checkmate are not modelled. The source has no code for them and marks the first two as to-do.
- Direction vectors are required to be nonzero, because an unlimited walk along the zero vector would never end.
- Pawns carry only a rank direction (their file direction is 0), because the forward loop advances and bounds-checks only `y`. The source's pawns use 1 and -1, but any rank direction is accepted.
- `Arena.GameArena.constructor` requires at least one rank, because `size` reads the width from the first rank.
- `Unit.has_been_moved` starts as `None` in the base class before recruitment sets it to `False`. The model has only the recruited state, a boolean.
- A snapshot cell with a nonzero id but no unit would crash the source on `node.unit.owner`. Snapshots taken from a valid arena never contain one (`Snapshots.WellFormed`), and the rules assume well-formed snapshots.
- Snapshots are compared as values. That the builder hands out a copy of its dictionary (aliasing) is not modelled.
