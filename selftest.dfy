/** Concrete scenarios on an 8 × 8 board: the knight's move counts on an empty board, and the
    module's own self-test (a full pawn rank per side, the a-pawn's double step, then a rook
    recruited on a1). */
module SelfTest {
  import opened Common
  import opened Pieces
  import opened Snapshots
  import opened Movement
  import opened Battlefield
  import opened Arena

  /** On a snapshot whose cells are all empty, a one-step walker reaches exactly the single
      steps that stay on the board. */
  lemma OneStepOnEmptyBoard(s: Snapshot, origin: Square, owner: nat, dirs: seq<Vector>, sq: Square)
    requires NonZero(dirs) && s.nodes == map[]
    ensures sq in WalkerMoves(s, origin, owner, dirs, 1) <==>
            InBounds(s, sq) && exists i :: 0 <= i < |dirs| && sq == Shift(origin, dirs[i])
  {
    WalkerMovesExact(s, origin, owner, dirs, 1, sq);
    if InBounds(s, sq) && exists i :: 0 <= i < |dirs| && sq == Shift(origin, dirs[i]) {
      var i :| 0 <= i < |dirs| && sq == Shift(origin, dirs[i]);
      AlongStep(origin, dirs[i], 0);
      assert Reaches(s, origin, dirs[i], 1, 1);
    }
    if OnSomeRay(s, origin, dirs, 1, sq) {
      var i, k :| 0 <= i < |dirs| && Reaches(s, origin, dirs[i], 1, k) && sq == Along(origin, dirs[i], k);
      assert k == 1;
    }
  }

  /** Picks the knight vector a single knight step used. */
  lemma KnightStep(origin: Square, sq: Square) returns (i: int)
    requires exists i :: 0 <= i < |KNIGHT_DIRS| && sq == Shift(origin, KNIGHT_DIRS[i])
    ensures 0 <= i < 8 && sq == Shift(origin, KNIGHT_DIRS[i])
    ensures i == 0 || i == 1 || i == 2 || i == 3 || i == 4 || i == 5 || i == 6 || i == 7
  {
    i :| 0 <= i < |KNIGHT_DIRS| && sq == Shift(origin, KNIGHT_DIRS[i]);
  }

  /** A knight in the corner of an empty 8 × 8 board has two moves. */
  lemma KnightInCorner(s: Snapshot)
    requires s.xmax == 8 && s.ymax == 8 && s.nodes == map[]
    ensures Elems(WalkerMoves(s, Square(0, 0), 1, KNIGHT_DIRS, 1)) == {Square(2, 1), Square(1, 2)}
  {
    var o := Square(0, 0);
    var moves := Elems(WalkerMoves(s, o, 1, KNIGHT_DIRS, 1));
    forall sq ensures sq in moves <==> sq in {Square(2, 1), Square(1, 2)} {
      OneStepOnEmptyBoard(s, o, 1, KNIGHT_DIRS, sq);
      if sq == Square(2, 1) {
        assert sq == Shift(o, KNIGHT_DIRS[0]);
      } else if sq == Square(1, 2) {
        assert sq == Shift(o, KNIGHT_DIRS[1]);
      } else if sq in moves {
        var i := KnightStep(o, sq);
      }
    }
  }

  /** The eight knight steps from `(3, 3)`, in the order of the knight's vectors. */
  function KnightTargets(): seq<Square> {
    [Square(5, 4), Square(4, 5), Square(2, 5), Square(1, 4),
     Square(1, 2), Square(2, 1), Square(4, 1), Square(5, 2)]
  }

  /** A knight on `(3, 3)` of an empty 8 × 8 board may move exactly to its eight knight steps. */
  lemma KnightOpenMoves(s: Snapshot)
    requires s.xmax == 8 && s.ymax == 8 && s.nodes == map[]
    ensures Elems(WalkerMoves(s, Square(3, 3), 1, KNIGHT_DIRS, 1)) == Elems(KnightTargets())
  {
    var o := Square(3, 3);
    var moves := Elems(WalkerMoves(s, o, 1, KNIGHT_DIRS, 1));
    var targets := KnightTargets();
    forall sq ensures sq in moves <==> sq in Elems(targets) {
      OneStepOnEmptyBoard(s, o, 1, KNIGHT_DIRS, sq);
      if sq in Elems(targets) {
        var j :| 0 <= j < |targets| && targets[j] == sq;
        assert sq == Shift(o, KNIGHT_DIRS[j]);
      } else if sq in moves {
        var i := KnightStep(o, sq);
      }
    }
  }

  /** A knight well inside an empty 8 × 8 board has eight moves. */
  lemma KnightInTheOpen(s: Snapshot)
    requires s.xmax == 8 && s.ymax == 8 && s.nodes == map[]
    ensures |Elems(WalkerMoves(s, Square(3, 3), 1, KNIGHT_DIRS, 1))| == 8
  {
    KnightOpenMoves(s);
    KnightTargetsCount();
  }

  /** A sequence without repeated squares has as many distinct squares as elements. */
  lemma {:induction false} DistinctCount(sqs: seq<Square>)
    requires forall i, j :: 0 <= i < j < |sqs| ==> sqs[i] != sqs[j]
    ensures |Elems(sqs)| == |sqs|
    decreases |sqs|
  {
    if sqs != [] {
      var tail := sqs[1..];
      DistinctCount(tail);
      assert Elems(sqs) == {sqs[0]} + Elems(tail);
      assert sqs[0] !in Elems(tail);
    }
  }

  lemma KnightTargetsCount()
    ensures |Elems(KnightTargets())| == 8
  {
    DistinctCount(KnightTargets());
  }

  /** The a-pawn's moves in the self-test: with the two squares ahead of it and the square
      diagonally ahead empty, an unmoved white pawn on `(0, 1)` steps to `(0, 2)` or charges
      to `(0, 3)`, in that order, so the second move is the double step. */
  lemma SelfTestPawn(s: Snapshot)
    requires s.xmax == 8 && s.ymax == 8
    requires At(s, Square(0, 2)).unitId == 0 && At(s, Square(0, 3)).unitId == 0
    requires At(s, Square(1, 2)).unitId == 0
    ensures PawnMoves(s, Square(0, 1), 1, 1, false) == [Square(0, 2), Square(0, 3)]
  {
    SelfTestPawnForward(s);
    SelfTestPawnCaptures(s);
  }

  lemma SelfTestPawnForward(s: Snapshot)
    requires s.xmax == 8 && s.ymax == 8
    requires At(s, Square(0, 2)).unitId == 0 && At(s, Square(0, 3)).unitId == 0
    ensures PawnForward(s, Square(0, 1), 1, false) == [Square(0, 2), Square(0, 3)]
  {
    assert Advance(s, 0, 4, 1, 3, 2) == [];
    assert Advance(s, 0, 3, 1, 2, 2) == [Square(0, 3)];
    assert Advance(s, 0, 2, 1, 1, 2) == [Square(0, 2), Square(0, 3)];
  }

  lemma SelfTestPawnCaptures(s: Snapshot)
    requires s.xmax == 8 && s.ymax == 8
    requires At(s, Square(1, 2)).unitId == 0
    ensures Hostiles(s, 1, PawnShootingRange(s, Square(0, 1), 1)) == []
  {
    var shots := PawnShootingRange(s, Square(0, 1), 1);
    var h := Hostiles(s, 1, shots);
    assert shots == [Square(1, 2)];
    assert h == Hostiles(s, 1, []) + [];
  }

  /** With the rest of the first rank empty, the rook on `(0, 0)` reaches every square of it. */
  lemma RookAlongRank(s: Snapshot, x: int)
    requires s.xmax == 8 && s.ymax == 8
    requires forall x :: 1 <= x < 8 ==> At(s, Square(x, 0)).unitId == 0
    requires 1 <= x < 8
    ensures Along(Square(0, 0), ROOK_DIRS[0], x) == Square(x, 0)
    ensures Reaches(s, Square(0, 0), ROOK_DIRS[0], 0, x)
  {
    forall j | 1 <= j < x ensures ClearStep(s, Square(0, 0), ROOK_DIRS[0], j) {
      assert Along(Square(0, 0), ROOK_DIRS[0], j) == Square(j, 0);
    }
  }

  /** With `(0, 1)` and `(0, 2)` empty, the rook on `(0, 0)` reaches both of them. */
  lemma RookAlongFile(s: Snapshot, y: int)
    requires s.xmax == 8 && s.ymax == 8
    requires At(s, Square(0, 1)).unitId == 0 && At(s, Square(0, 2)).unitId == 0
    requires 1 <= y <= 2
    ensures Along(Square(0, 0), ROOK_DIRS[1], y) == Square(0, y)
    ensures Reaches(s, Square(0, 0), ROOK_DIRS[1], 0, y)
  {
    forall j | 1 <= j < y ensures ClearStep(s, Square(0, 0), ROOK_DIRS[1], j) {
      assert Along(Square(0, 0), ROOK_DIRS[1], j) == Square(0, j);
    }
  }

  /** Every square the rook on `(0, 0)` reaches and may take is on the first rank or is
      `(0, 1)` or `(0, 2)`: the file is closed by its own side's pawn on `(0, 3)` and the two
      other directions leave the board at once. */
  lemma RookRayBound(s: Snapshot, i: int, k: int)
    requires s.xmax == 8 && s.ymax == 8
    requires At(s, Square(0, 3)).unitId != 0 && At(s, Square(0, 3)).unit == Some(Unit(1, true, WHITE_PAWN))
    requires 0 <= i < |ROOK_DIRS| && Reaches(s, Square(0, 0), ROOK_DIRS[i], 0, k)
    requires Takeable(s, Along(Square(0, 0), ROOK_DIRS[i], k), 1)
    ensures Along(Square(0, 0), ROOK_DIRS[i], k) in (set x | 1 <= x < 8 :: Square(x, 0)) + {Square(0, 1), Square(0, 2)}
  {
    var o, d := Square(0, 0), ROOK_DIRS[i];
    assert i < 2 || !ClearStep(s, o, d, 1);
    assert i != 1 || (Along(o, d, 3) == Square(0, 3) && !ClearStep(s, o, d, 3));
  }

  /** The rook's moves in the self-test: from `(0, 0)` with the rest of the first rank empty,
      `(0, 1)` and `(0, 2)` empty and its own side's pawn on `(0, 3)`, a rook may go anywhere
      along the first rank and up to `(0, 2)`, and nowhere else. */
  lemma SelfTestRook(s: Snapshot)
    requires s.xmax == 8 && s.ymax == 8
    requires forall x :: 1 <= x < 8 ==> At(s, Square(x, 0)).unitId == 0
    requires At(s, Square(0, 1)).unitId == 0 && At(s, Square(0, 2)).unitId == 0
    requires At(s, Square(0, 3)).unitId != 0 && At(s, Square(0, 3)).unit == Some(Unit(1, true, WHITE_PAWN))
    ensures Elems(WalkerMoves(s, Square(0, 0), 1, ROOK_DIRS, 0)) ==
            (set x | 1 <= x < 8 :: Square(x, 0)) + {Square(0, 1), Square(0, 2)}
  {
    var o := Square(0, 0);
    var moves := Elems(WalkerMoves(s, o, 1, ROOK_DIRS, 0));
    var expected := (set x | 1 <= x < 8 :: Square(x, 0)) + {Square(0, 1), Square(0, 2)};
    forall sq ensures sq in moves <==> sq in expected {
      WalkerMovesExact(s, o, 1, ROOK_DIRS, 0, sq);
      if sq in expected {
        if sq.y == 0 {
          RookAlongRank(s, sq.x);
          assert 0 <= 0 < |ROOK_DIRS| && Reaches(s, o, ROOK_DIRS[0], 0, sq.x) && sq == Along(o, ROOK_DIRS[0], sq.x);
        } else {
          RookAlongFile(s, sq.y);
          assert 0 <= 1 < |ROOK_DIRS| && Reaches(s, o, ROOK_DIRS[1], 0, sq.y) && sq == Along(o, ROOK_DIRS[1], sq.y);
        }
      }
      if sq in moves {
        var i, k :| 0 <= i < |ROOK_DIRS| && Reaches(s, o, ROOK_DIRS[i], 0, k) && sq == Along(o, ROOK_DIRS[i], k);
        RookRayBound(s, i, k);
      }
    }
  }

  /** The id standing on `sq` once the first `n` files hold their pawns: the white pawn
      recruited for file `x` gets id `2x + 1` on rank 1, the black one `2x + 2` on rank 6. */
  function PawnRanks(n: int, sq: Square): nat {
    if sq.y == 1 && 0 <= sq.x < n then 2 * sq.x + 1
    else if sq.y == 6 && 0 <= sq.x < n then 2 * sq.x + 2
    else 0
  }

  /** The registry entry of the `i`-th pawn recruited by the self-test. */
  function PawnEntry(i: int): Unit {
    if i % 2 == 0 then Unit(1, false, WHITE_PAWN) else Unit(2, false, BLACK_PAWN)
  }

  /** The board after the opening recruitment: both pawn ranks full, all else empty. */
  ghost predicate OpeningGrid(g: Grid) {
    |g| == 8 && (forall y :: 0 <= y < 8 ==> |g[y]| == 8) &&
    forall sq :: OnGrid(g, sq) ==> Cell(g, sq) == PawnRanks(8, sq)
  }

  /** The id on `sq` after the a-pawn's double step and the rook's recruitment. */
  function RookBoardCell(sq: Square): nat {
    if sq == Square(0, 0) then 17
    else if sq == Square(0, 3) then 1
    else if sq == Square(0, 1) then 0
    else PawnRanks(8, sq)
  }

  /** The board after the a-pawn's double step and the rook's recruitment on `(0, 0)`. */
  ghost predicate RookGrid(g: Grid) {
    |g| == 8 && (forall y :: 0 <= y < 8 ==> |g[y]| == 8) &&
    forall sq :: OnGrid(g, sq) ==> Cell(g, sq) == RookBoardCell(sq)
  }

  /** The same as `SelfTestPawn`, through the rule dispatch that the arena uses. */
  lemma SelfTestPawnRule(s: Snapshot, u: Unit)
    requires WellFormed(s) && s.xmax == 8 && s.ymax == 8 && u == Unit(1, false, WHITE_PAWN)
    requires At(s, Square(0, 2)).unitId == 0 && At(s, Square(0, 3)).unitId == 0
    requires At(s, Square(1, 2)).unitId == 0
    ensures Movement.Moves(s, u, Square(0, 1)) == {Square(0, 2), Square(0, 3)}
  {
    SelfTestPawn(s);
    assert Elems([Square(0, 2), Square(0, 3)]) == {Square(0, 2), Square(0, 3)};
  }

  /** In the opening position the a-pawn may step to `(0, 2)` or charge to `(0, 3)`. */
  lemma OpeningPawnMoves(g: Grid, units: seq<Unit>)
    requires GridValid(g, |units|) && AllValidKinds(units) && OpeningGrid(g)
    requires |units| == 16 && units[0] == Unit(1, false, WHITE_PAWN)
    ensures MovesOfUnit(g, units, 1) == Ok({Square(0, 2), Square(0, 3)})
  {
    LocateUnique(g, 16, 1, Square(0, 1));
    GridSnapshotExact(g, units);
    var s := GridSnapshot(g, units);
    assert At(s, Square(0, 2)) == NodeFor(0, units);
    assert At(s, Square(0, 3)) == NodeFor(0, units);
    assert At(s, Square(1, 2)) == NodeFor(0, units);
    SelfTestPawnRule(s, units[0]);
  }

  /** The board after the a-pawn's double step: recruiting the rook on `(0, 0)` turns it into
      `RookGrid`. */
  ghost predicate ChargedGrid(g: Grid) {
    OnGrid(g, Square(0, 0)) && RookGrid(SetCell(g, Square(0, 0), 17))
  }

  /** The double step and the rook's recruitment turn the opening board into `RookGrid`. */
  lemma ChargeThenRook(g: Grid)
    requires GridValid(g, 16) && OpeningGrid(g)
    ensures ChargedGrid(Place(g, 1, Square(0, 3)))
  {
    LocateUnique(g, 16, 1, Square(0, 1));
    PlaceExact(g, 16, 1, Square(0, 3));
    var g2 := Place(g, 1, Square(0, 3));
    assert OnGrid(g, Square(0, 0));
    SetCellShape(g2, Square(0, 0), 17);
    assert |g2| == 8 && forall y :: 0 <= y < 8 ==> |g2[y]| == 8 by {
      assert Rectangular(g2);
      assert OnGrid(g2, Square(0, 0)) && OnGrid(g2, Square(7, 0));
    }
  }

  /** On that board the rook may go along the first rank and up to the two squares the pawn
      left; its own pawn on `(0, 3)` blocks the file. */
  lemma RookMovesAfterCharge(g: Grid, units: seq<Unit>)
    requires GridValid(g, |units|) && AllValidKinds(units) && RookGrid(g)
    requires |units| == 17 && units[0] == Unit(1, true, WHITE_PAWN) && units[16] == Unit(1, false, ROOK)
    ensures MovesOfUnit(g, units, 17) == Ok((set x | 1 <= x < 8 :: Square(x, 0)) + {Square(0, 1), Square(0, 2)})
  {
    LocateUnique(g, 17, 17, Square(0, 0));
    GridSnapshotExact(g, units);
    var s := GridSnapshot(g, units);
    forall x | 1 <= x < 8 ensures At(s, Square(x, 0)).unitId == 0 {
      assert At(s, Square(x, 0)) == NodeFor(0, units);
    }
    assert At(s, Square(0, 1)) == NodeFor(0, units);
    assert At(s, Square(0, 2)) == NodeFor(0, units);
    assert At(s, Square(0, 3)) == NodeFor(1, units);
    SelfTestRook(s);
  }

  /** Recruits a white pawn on rank 1 and a black pawn on rank 6 of every file, alternately,
      as the self-test's opening does. */
  method RecruitPawns(arena: GameArena)
    requires arena.Valid() && arena.units == [] && arena.grid == EmptyGrid(8, 8)
    modifies arena
    ensures arena.Valid() && OpeningGrid(arena.grid)
    ensures |arena.units| == 16 && forall i :: 0 <= i < 16 ==> arena.units[i] == PawnEntry(i)
  {
    for x := 0 to 8
      invariant arena.Valid()
      invariant |arena.units| == 2 * x
      invariant forall i :: 0 <= i < 2 * x ==> arena.units[i] == PawnEntry(i)
      invariant |arena.grid| == 8 && forall y :: 0 <= y < 8 ==> |arena.grid[y]| == 8
      invariant forall sq :: OnGrid(arena.grid, sq) ==> Cell(arena.grid, sq) == PawnRanks(x, sq)
    {
      ghost var g0 := arena.grid;
      var white := arena.Recruit(1, Some(Square(x, 1)), WHITE_PAWN);
      SetCellShape(g0, Square(x, 1), 2 * x + 1);
      ghost var g1 := arena.grid;
      var black := arena.Recruit(2, Some(Square(x, 6)), BLACK_PAWN);
      SetCellShape(g1, Square(x, 6), 2 * x + 2);
    }
  }

  /** The self-test's first query and move: the a-pawn's moves, then its double step. */
  method OpeningPhase(arena: GameArena) returns (pawnMoves: Result<set<Square>>, moved: Outcome)
    requires arena.Valid() && OpeningGrid(arena.grid)
    requires |arena.units| == 16 && forall i :: 0 <= i < 16 ==> arena.units[i] == PawnEntry(i)
    modifies arena
    ensures pawnMoves == Ok({Square(0, 2), Square(0, 3)}) && moved == Pass
    ensures arena.Valid() && ChargedGrid(arena.grid)
    ensures |arena.units| == 16 && arena.units[0] == Unit(1, true, WHITE_PAWN)
  {
    assert arena.units[0] == PawnEntry(0);
    OpeningPawnMoves(arena.grid, arena.units);
    pawnMoves := arena.RetrieveValidMovesOfUnit(1);
    ghost var g := arena.grid;
    assert OnGrid(g, Square(0, 3));
    ChargeThenRook(g);
    moved := arena.MoveUnit(1, Square(0, 3));
  }

  /** The self-test's rook: recruited on `(0, 0)` after the double step, then queried. */
  method RookPhase(arena: GameArena) returns (rook: Result<nat>, rookMoves: Result<set<Square>>)
    requires arena.Valid() && ChargedGrid(arena.grid)
    requires |arena.units| == 16 && arena.units[0] == Unit(1, true, WHITE_PAWN)
    modifies arena
    ensures rook == Ok(17)
    ensures rookMoves == Ok((set x | 1 <= x < 8 :: Square(x, 0)) + {Square(0, 1), Square(0, 2)})
  {
    rook := arena.Recruit(1, Some(Square(0, 0)), ROOK);
    RookMovesAfterCharge(arena.grid, arena.units);
    rookMoves := arena.RetrieveValidMovesOfUnit(17);
  }

  /** The module's self-test on an 8 × 8 arena: recruit a white and a black pawn on every file,
      ask for the a-pawn's moves, make its double step, recruit a white rook on `(0, 0)` and
      ask for the rook's moves. The pawn is offered exactly its two forward squares, the rook
      gets id 17 and is offered the whole first rank and the two squares the pawn left. */
  method SelfTestScenario() returns (pawnMoves: Result<set<Square>>, moved: Outcome, rook: Result<nat>,
                                     rookMoves: Result<set<Square>>)
    ensures pawnMoves == Ok({Square(0, 2), Square(0, 3)})
    ensures moved == Pass
    ensures rook == Ok(17)
    ensures rookMoves == Ok((set x | 1 <= x < 8 :: Square(x, 0)) + {Square(0, 1), Square(0, 2)})
  {
    var arena := new GameArena(8, 8);
    RecruitPawns(arena);
    pawnMoves, moved := OpeningPhase(arena);
    rook, rookMoves := RookPhase(arena);
  }
}
