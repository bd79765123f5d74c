/** The movement-rule engine: for a unit standing on `origin`, which squares it may move to
    and which squares it "shoots" (could capture into), read off an immutable snapshot.

    Each rule is first given as a recursive specification function that follows the source
    loop step by step, then as a method with the source's loops proved equal to it, and the
    rule's guarantees are proved as lemmas about the specification function. */
module Movement {
  import opened Common
  import opened Pieces
  import opened Snapshots

  // ---------------------------------------------------------------------------------------
  // Cells

  predicate Occupied(s: Snapshot, sq: Square)
    requires InBounds(s, sq)
  {
    At(s, sq).unitId > 0
  }

  /** On the board and empty. */
  predicate Clear(s: Snapshot, sq: Square) {
    InBounds(s, sq) && !Occupied(s, sq)
  }

  /** Occupied by a unit of a player other than `owner`. */
  predicate HostileAt(s: Snapshot, sq: Square, owner: nat)
    requires InBounds(s, sq)
  {
    At(s, sq).unitId != 0 && At(s, sq).unit.Some? && At(s, sq).unit.value.owner != owner
  }

  /** A walker may end on an empty square or on an enemy's square, never on its own side's. */
  predicate Takeable(s: Snapshot, sq: Square, owner: nat)
    requires InBounds(s, sq)
  {
    At(s, sq).unitId == 0 || (At(s, sq).unit.Some? && At(s, sq).unit.value.owner != owner)
  }

  predicate AllInBounds(s: Snapshot, sqs: seq<Square>) {
    forall i :: 0 <= i < |sqs| ==> InBounds(s, sqs[i])
  }

  function Elems(sqs: seq<Square>): set<Square> {
    set sq | sq in sqs
  }

  // ---------------------------------------------------------------------------------------
  // Directional walk

  /** How many more steps along `d` stay on the board from `pos` (0 once off it). */
  function Remaining(s: Snapshot, pos: Square, d: Vector): nat {
    if !InBounds(s, pos) then 0
    else if d.dx > 0 then s.xmax - pos.x
    else if d.dx < 0 then pos.x + 1
    else if d.dy > 0 then s.ymax - pos.y
    else pos.y + 1
  }

  /** The rest of one direction's walk: `pos` is the square examined at step `step`. The walk
      stops before step `limit + 1` when `limit > 0`, stops without the square once off the
      board, and stops with the square at the first occupied one. */
  function Ray(s: Snapshot, pos: Square, d: Vector, limit: int, step: nat): (r: seq<Square>)
    requires d != Vector(0, 0)
    ensures AllInBounds(s, r)
    ensures forall i :: 0 <= i < |r| - 1 ==> !Occupied(s, r[i])
    decreases Remaining(s, pos, d)
  {
    if limit > 0 && step > limit then []
    else if !InBounds(s, pos) then []
    else if Occupied(s, pos) then [pos]
    else [pos] + Ray(s, Shift(pos, d), d, limit, step + 1)
  }

  /** The squares one direction vector covers from `origin`. */
  function Walk(s: Snapshot, origin: Square, d: Vector, limit: int): seq<Square>
    requires d != Vector(0, 0)
  {
    Ray(s, Shift(origin, d), d, limit, 1)
  }

  /** Step `k` of the walk along `d` (counting from `first`) is examined and kept: it is within
      the step limit, on the board, and every earlier step from `first` on is empty. */
  ghost predicate ReachesFrom(s: Snapshot, origin: Square, d: Vector, limit: int, first: int, k: int) {
    first <= k && (limit > 0 ==> k <= limit) && InBounds(s, Along(origin, d, k)) &&
    forall j :: first <= j < k ==> ClearStep(s, origin, d, j)
  }

  /** Step `j` along `d` from `origin` is on the board and empty. */
  ghost predicate ClearStep(s: Snapshot, origin: Square, d: Vector, j: int) {
    Clear(s, Along(origin, d, j))
  }

  /** `origin + k·d` is in the shooting range along `d`: `k >= 1`, `k <= limit` when
      `limit > 0`, the square is on the board and all squares before it on the ray are empty. */
  ghost predicate Reaches(s: Snapshot, origin: Square, d: Vector, limit: int, k: int) {
    ReachesFrom(s, origin, d, limit, 1, k)
  }

  /** Past an empty first square, reaching step `k` from `step` is reaching it from `step + 1`. */
  lemma ReachesPastClear(s: Snapshot, origin: Square, d: Vector, limit: int, step: int, k: int)
    requires Clear(s, Along(origin, d, step)) && step < k
    ensures ReachesFrom(s, origin, d, limit, step, k) <==> ReachesFrom(s, origin, d, limit, step + 1, k)
  {
    if ReachesFrom(s, origin, d, limit, step + 1, k) {
      forall j | step <= j < k ensures ClearStep(s, origin, d, j) {
        if j != step {
          assert step + 1 <= j < k;
        }
      }
    }
  }

  /** `r` lists exactly the steps from `first` on that the walk along `d` keeps: its `i`-th
      square is step `first + i`, each of them is reached, and no later step is. */
  ghost predicate KeptExactly(s: Snapshot, origin: Square, d: Vector, limit: int, first: int, r: seq<Square>) {
    (forall i :: 0 <= i < |r| ==>
       r[i] == Along(origin, d, first + i) && ReachesFrom(s, origin, d, limit, first, first + i)) &&
    (forall k :: ReachesFrom(s, origin, d, limit, first, k) ==> k < first + |r|)
  }

  /** One step of `RayExact`: prefixing an empty step-`step` square to what the walk keeps
      from step `step + 1` on gives what it keeps from step `step` on. */
  lemma ExtendRay(s: Snapshot, origin: Square, d: Vector, limit: int, step: int, next: int, p: Square,
                  rest: seq<Square>)
    requires p == Along(origin, d, step) && ClearStep(s, origin, d, step) && (limit > 0 ==> step <= limit)
    requires next == step + 1 && KeptExactly(s, origin, d, limit, next, rest)
    ensures KeptExactly(s, origin, d, limit, step, [p] + rest)
  {
    var r := [p] + rest;
    forall i | 0 <= i < |r|
      ensures r[i] == Along(origin, d, step + i) && ReachesFrom(s, origin, d, limit, step, step + i)
    {
      if i == 0 {
        assert r[0] == p;
      } else {
        var j := i - 1;
        assert r[i] == rest[j];
        assert rest[j] == Along(origin, d, next + j) && ReachesFrom(s, origin, d, limit, next, next + j);
        assert next + j == step + i;
        ReachesPastClear(s, origin, d, limit, step, step + i);
      }
    }
    forall k | ReachesFrom(s, origin, d, limit, step, k) ensures k < step + |r| {
      if k > step {
        ReachesPastClear(s, origin, d, limit, step, k);
        assert ReachesFrom(s, origin, d, limit, next, k);
      }
    }
  }

  /** The walk ends at step `step` when that square is off the board or occupied: only an
      occupied square is kept, and no later step is reached. */
  lemma RayEnd(s: Snapshot, origin: Square, d: Vector, limit: int, step: nat, p: Square)
    requires d != Vector(0, 0) && p == Along(origin, d, step) && (limit > 0 ==> step <= limit)
    requires !InBounds(s, p) || Occupied(s, p)
    ensures KeptExactly(s, origin, d, limit, step, Ray(s, p, d, limit, step))
  {
    var r := Ray(s, p, d, limit, step);
    assert !ClearStep(s, origin, d, step);
    if InBounds(s, p) {
      assert r == [p];
      assert ReachesFrom(s, origin, d, limit, step, step);
    } else {
      assert r == [];
    }
    forall k | ReachesFrom(s, origin, d, limit, step, k) ensures k < step + |r| {
    }
  }

  /** From step `step` on, the walk keeps exactly the steps that are reached. */
  lemma {:induction false} RayExact(s: Snapshot, origin: Square, d: Vector, limit: int, step: nat, p: Square)
    requires d != Vector(0, 0) && step >= 1 && p == Along(origin, d, step)
    ensures KeptExactly(s, origin, d, limit, step, Ray(s, p, d, limit, step))
    decreases Remaining(s, p, d)
  {
    if limit > 0 && step > limit {
      assert Ray(s, p, d, limit, step) == [];
      forall k ensures !ReachesFrom(s, origin, d, limit, step, k) {
      }
    } else if !InBounds(s, p) || Occupied(s, p) {
      RayEnd(s, origin, d, limit, step, p);
    } else {
      var q, next := Shift(p, d), step + 1;
      AlongStep(origin, d, step);
      RayExact(s, origin, d, limit, next, q);
      var rest := Ray(s, q, d, limit, next);
      assert Ray(s, p, d, limit, step) == [p] + rest;
      ExtendRay(s, origin, d, limit, step, next, p, rest);
    }
  }

  /** The walk along `d` is exactly `origin + 1·d, origin + 2·d, …, origin + n·d` where `n` is
      the last step that `Reaches`: every kept square is on the board, within the step limit,
      preceded only by empty squares, and no later step is kept. */
  lemma {:induction false} WalkExact(s: Snapshot, origin: Square, d: Vector, limit: int)
    requires d != Vector(0, 0)
    ensures forall i :: 0 <= i < |Walk(s, origin, d, limit)| ==>
              Walk(s, origin, d, limit)[i] == Along(origin, d, i + 1) && Reaches(s, origin, d, limit, i + 1)
    ensures forall k :: Reaches(s, origin, d, limit, k) ==> k <= |Walk(s, origin, d, limit)|
  {
    var w := Walk(s, origin, d, limit);
    AlongStep(origin, d, 0);
    assert w == Ray(s, Shift(origin, d), d, limit, 1);
    RayExact(s, origin, d, limit, 1, Shift(origin, d));
    assert KeptExactly(s, origin, d, limit, 1, w);
    forall i | 0 <= i < |w| ensures w[i] == Along(origin, d, i + 1) && Reaches(s, origin, d, limit, i + 1) {
      assert w[i] == Along(origin, d, 1 + i) && ReachesFrom(s, origin, d, limit, 1, 1 + i);
    }
    forall k | Reaches(s, origin, d, limit, k) ensures k <= |w| {
      assert ReachesFrom(s, origin, d, limit, 1, k);
    }
  }

  /** The walk ends for one of three reasons: the step limit, the board edge, or an occupied
      square, which is then the walk's last square. */
  lemma {:induction false} WalkStops(s: Snapshot, origin: Square, d: Vector, limit: int)
    requires d != Vector(0, 0)
    ensures var w := Walk(s, origin, d, limit);
      (limit > 0 && |w| == limit) ||
      !InBounds(s, Along(origin, d, |w| + 1)) ||
      (|w| > 0 && Occupied(s, w[|w| - 1]))
  {
    var w := Walk(s, origin, d, limit);
    AlongStep(origin, d, 0);
    assert w == Ray(s, Shift(origin, d), d, limit, 1);
    RayExact(s, origin, d, limit, 1, Shift(origin, d));
    WalkNext(s, origin, d, limit, w);
  }

  /** Given the kept squares `w` of a walk, either one of the three stopping reasons holds or
      the next step is reached as well. */
  lemma WalkNext(s: Snapshot, origin: Square, d: Vector, limit: int, w: seq<Square>)
    requires AllInBounds(s, w) && KeptExactly(s, origin, d, limit, 1, w)
    ensures (limit > 0 && |w| == limit) || !InBounds(s, Along(origin, d, |w| + 1)) ||
            (|w| > 0 && Occupied(s, w[|w| - 1])) || Reaches(s, origin, d, limit, |w| + 1)
  {
    var n := |w|;
    if !(limit > 0 && n == limit) && InBounds(s, Along(origin, d, n + 1)) && !(n > 0 && Occupied(s, w[n - 1])) {
      if n > 0 {
        assert w[n - 1] == Along(origin, d, 1 + (n - 1)) && ReachesFrom(s, origin, d, limit, 1, 1 + (n - 1));
      }
      forall j | 1 <= j < n + 1 ensures ClearStep(s, origin, d, j) {
        assert w[j - 1] == Along(origin, d, 1 + (j - 1));
        if j < n {
          assert ReachesFrom(s, origin, d, limit, 1, 1 + (n - 1));
        }
      }
    }
  }

  /** `retrieve_squares_within_shooting_range` of a walker: the walks of all its direction
      vectors, in order. */
  function WalkAll(s: Snapshot, origin: Square, dirs: seq<Vector>, limit: int): (r: seq<Square>)
    requires NonZero(dirs)
    ensures AllInBounds(s, r)
  {
    if dirs == [] then []
    else WalkAll(s, origin, dirs[..|dirs| - 1], limit) + Walk(s, origin, dirs[|dirs| - 1], limit)
  }

  lemma {:induction false} WalkAllMembers(s: Snapshot, origin: Square, dirs: seq<Vector>, limit: int, sq: Square)
    requires NonZero(dirs)
    ensures sq in WalkAll(s, origin, dirs, limit) <==>
            exists i :: 0 <= i < |dirs| && sq in Walk(s, origin, dirs[i], limit)
  {
    if dirs != [] {
      var init := dirs[..|dirs| - 1];
      WalkAllMembers(s, origin, init, limit, sq);
      if exists i :: 0 <= i < |dirs| && sq in Walk(s, origin, dirs[i], limit) {
        var i :| 0 <= i < |dirs| && sq in Walk(s, origin, dirs[i], limit);
        if i < |dirs| - 1 {
          assert init[i] == dirs[i];
        }
      }
      if exists i :: 0 <= i < |init| && sq in Walk(s, origin, init[i], limit) {
        var i :| 0 <= i < |init| && sq in Walk(s, origin, init[i], limit);
        assert dirs[i] == init[i];
      }
    }
  }

  /** `sq` lies on one of the rays of a walker: it is `origin + k·dirs[i]` for a step `k` that
      `Reaches`. */
  ghost predicate OnSomeRay(s: Snapshot, origin: Square, dirs: seq<Vector>, limit: int, sq: Square)
    requires NonZero(dirs)
  {
    exists i, k :: 0 <= i < |dirs| && Reaches(s, origin, dirs[i], limit, k) && sq == Along(origin, dirs[i], k)
  }

  /** A walker's shooting range is exactly the set of squares on its rays. */
  lemma ShootingRangeExact(s: Snapshot, origin: Square, dirs: seq<Vector>, limit: int, sq: Square)
    requires NonZero(dirs)
    ensures sq in WalkAll(s, origin, dirs, limit) <==> OnSomeRay(s, origin, dirs, limit, sq)
  {
    WalkAllMembers(s, origin, dirs, limit, sq);
    if sq in WalkAll(s, origin, dirs, limit) {
      var i :| 0 <= i < |dirs| && sq in Walk(s, origin, dirs[i], limit);
      var w := Walk(s, origin, dirs[i], limit);
      WalkExact(s, origin, dirs[i], limit);
      var j :| 0 <= j < |w| && w[j] == sq;
      assert Reaches(s, origin, dirs[i], limit, j + 1) && sq == Along(origin, dirs[i], j + 1);
    }
    if OnSomeRay(s, origin, dirs, limit, sq) {
      var i, k :| 0 <= i < |dirs| && Reaches(s, origin, dirs[i], limit, k) && sq == Along(origin, dirs[i], k);
      var w := Walk(s, origin, dirs[i], limit);
      WalkExact(s, origin, dirs[i], limit);
      assert w[k - 1] == sq;
    }
  }

  /** Keeps the squares a walker may end on (empty or enemy-held), in order. */
  function Keep(s: Snapshot, owner: nat, sqs: seq<Square>): seq<Square>
    requires AllInBounds(s, sqs)
  {
    if sqs == [] then []
    else
      var last := sqs[|sqs| - 1];
      Keep(s, owner, sqs[..|sqs| - 1]) + (if Takeable(s, last, owner) then [last] else [])
  }

  lemma {:induction false} KeepMembers(s: Snapshot, owner: nat, sqs: seq<Square>, sq: Square)
    requires AllInBounds(s, sqs)
    ensures sq in Keep(s, owner, sqs) <==> sq in sqs && Takeable(s, sq, owner)
  {
    if sqs != [] {
      var init := sqs[..|sqs| - 1];
      KeepMembers(s, owner, init, sq);
      assert sqs == init + [sqs[|sqs| - 1]];
    }
  }

  /** `retrieve_valid_moves` of a walker. */
  function WalkerMoves(s: Snapshot, origin: Square, owner: nat, dirs: seq<Vector>, limit: int): seq<Square>
    requires NonZero(dirs)
  {
    Keep(s, owner, WalkAll(s, origin, dirs, limit))
  }

  /** A walker may move exactly to the squares on its rays that are empty or enemy-held. */
  lemma WalkerMovesExact(s: Snapshot, origin: Square, owner: nat, dirs: seq<Vector>, limit: int, sq: Square)
    requires NonZero(dirs)
    ensures sq in WalkerMoves(s, origin, owner, dirs, limit) <==>
            OnSomeRay(s, origin, dirs, limit, sq) && InBounds(s, sq) && Takeable(s, sq, owner)
  {
    KeepMembers(s, owner, WalkAll(s, origin, dirs, limit), sq);
    ShootingRangeExact(s, origin, dirs, limit, sq);
    if OnSomeRay(s, origin, dirs, limit, sq) {
      var i, k :| 0 <= i < |dirs| && Reaches(s, origin, dirs[i], limit, k) && sq == Along(origin, dirs[i], k);
    }
  }

  // ---------------------------------------------------------------------------------------
  // Pawn

  /** The pawn's forward loop, step by step: `(x, y)` is the square examined at `step`. An
      occupied square is examined again at the next step without advancing, so the walk
      effectively stops there; leaving the board ends it. */
  function Advance(s: Snapshot, x: int, y: int, dy: int, step: nat, maxSteps: nat): (r: seq<Square>)
    requires 0 <= x < s.xmax
    decreases if step <= maxSteps then maxSteps + 1 - step else 0
  {
    if step > maxSteps then []
    else if y < 0 || y >= s.ymax then []
    else if At(s, Square(x, y)).unitId != 0 then Advance(s, x, y, dy, step + 1, maxSteps)
    else [Square(x, y)] + Advance(s, x, y + dy, dy, step + 1, maxSteps)
  }

  lemma {:induction false} AdvanceBlocked(s: Snapshot, x: int, y: int, dy: int, step: nat, maxSteps: nat)
    requires 0 <= x < s.xmax && 0 <= y < s.ymax && Occupied(s, Square(x, y))
    ensures Advance(s, x, y, dy, step, maxSteps) == []
    decreases if step <= maxSteps then maxSteps + 1 - step else 0
  {
    if step <= maxSteps {
      AdvanceBlocked(s, x, y, dy, step + 1, maxSteps);
    }
  }

  lemma {:induction false} AdvanceExact(s: Snapshot, x: int, y: int, dy: int, step: nat, maxSteps: nat)
    requires 0 <= x < s.xmax && 1 <= step <= maxSteps + 1
    ensures |Advance(s, x, y, dy, step, maxSteps)| <= maxSteps + 1 - step
    ensures forall i :: 0 <= i < |Advance(s, x, y, dy, step, maxSteps)| ==>
              Advance(s, x, y, dy, step, maxSteps)[i] == Along(Square(x, y), Vector(0, dy), i) &&
              Clear(s, Advance(s, x, y, dy, step, maxSteps)[i])
    ensures |Advance(s, x, y, dy, step, maxSteps)| < maxSteps + 1 - step ==>
              !Clear(s, Along(Square(x, y), Vector(0, dy), |Advance(s, x, y, dy, step, maxSteps)|))
    decreases maxSteps + 1 - step
  {
    var r := Advance(s, x, y, dy, step, maxSteps);
    var v := Vector(0, dy);
    if step > maxSteps {
    } else if y < 0 || y >= s.ymax {
    } else if At(s, Square(x, y)).unitId != 0 {
      AdvanceBlocked(s, x, y, dy, step + 1, maxSteps);
    } else {
      AdvanceExact(s, x, y + dy, dy, step + 1, maxSteps);
      var rest := Advance(s, x, y + dy, dy, step + 1, maxSteps);
      assert r == [Square(x, y)] + rest;
      assert Shift(Square(x, y), v) == Square(x, y + dy);
      forall i | 0 <= i < |r| ensures r[i] == Along(Square(x, y), v, i) && Clear(s, r[i]) {
        if i > 0 {
          assert r[i] == rest[i - 1];
          AlongShift(Square(x, y), v, i - 1);
        }
      }
      AlongShift(Square(x, y), v, |rest|);
    }
  }

  /** How far a pawn may advance: two squares before its first move, one afterwards. */
  function MaxAdvance(hasMoved: bool): nat {
    if hasMoved then 1 else 2
  }

  /** The pawn's forward squares from `origin`. */
  function PawnForward(s: Snapshot, origin: Square, dy: int, hasMoved: bool): seq<Square>
    requires 0 <= origin.x < s.xmax
  {
    Advance(s, origin.x, origin.y + dy, dy, 1, MaxAdvance(hasMoved))
  }

  /** The forward squares are `origin + 1·(0, dy)`, `origin + 2·(0, dy)`, …, all empty, at most
      two before the first move and one after it, and the advance stops at the first
      occupied or off-board square. */
  lemma PawnForwardExact(s: Snapshot, origin: Square, dy: int, hasMoved: bool)
    requires 0 <= origin.x < s.xmax
    ensures |PawnForward(s, origin, dy, hasMoved)| <= MaxAdvance(hasMoved)
    ensures forall i :: 0 <= i < |PawnForward(s, origin, dy, hasMoved)| ==>
              PawnForward(s, origin, dy, hasMoved)[i] == Along(origin, Vector(0, dy), i + 1) &&
              Clear(s, PawnForward(s, origin, dy, hasMoved)[i])
    ensures |PawnForward(s, origin, dy, hasMoved)| < MaxAdvance(hasMoved) ==>
              !Clear(s, Along(origin, Vector(0, dy), |PawnForward(s, origin, dy, hasMoved)| + 1))
  {
    var r := PawnForward(s, origin, dy, hasMoved);
    var v := Vector(0, dy);
    AdvanceExact(s, origin.x, origin.y + dy, dy, 1, MaxAdvance(hasMoved));
    var start := Square(origin.x, origin.y + dy);
    assert Shift(origin, v) == start;
    forall i | 0 <= i <= |r| ensures Along(start, v, i) == Along(origin, v, i + 1) {
      AlongShift(origin, v, i);
    }
  }

  /** `retrieve_squares_within_shooting_range` of a pawn: the forward diagonals that are on
      the board, whatever stands there. The source iterates over the set `{-1, 1}`, which
      CPython visits as `1, -1`, so the `x + 1` diagonal comes first. */
  function PawnShootingRange(s: Snapshot, origin: Square, dy: int): (r: seq<Square>)
    ensures AllInBounds(s, r) && |r| <= 2
    ensures forall sq :: sq in r <==>
              InBounds(s, sq) && sq.y == origin.y + dy && (sq.x == origin.x - 1 || sq.x == origin.x + 1)
  {
    var right := Square(origin.x + 1, origin.y + dy);
    var left := Square(origin.x - 1, origin.y + dy);
    (if InBounds(s, right) then [right] else []) + (if InBounds(s, left) then [left] else [])
  }

  /** Keeps the enemy-held squares, in order. */
  function Hostiles(s: Snapshot, owner: nat, sqs: seq<Square>): seq<Square>
    requires AllInBounds(s, sqs)
  {
    if sqs == [] then []
    else
      var last := sqs[|sqs| - 1];
      Hostiles(s, owner, sqs[..|sqs| - 1]) + (if HostileAt(s, last, owner) then [last] else [])
  }

  lemma {:induction false} HostilesMembers(s: Snapshot, owner: nat, sqs: seq<Square>, sq: Square)
    requires AllInBounds(s, sqs)
    ensures sq in Hostiles(s, owner, sqs) <==> sq in sqs && HostileAt(s, sq, owner)
  {
    if sqs != [] {
      var init := sqs[..|sqs| - 1];
      HostilesMembers(s, owner, init, sq);
      assert sqs == init + [sqs[|sqs| - 1]];
    }
  }

  /** `retrieve_valid_moves` of a pawn: the forward squares, then the diagonal captures. */
  function PawnMoves(s: Snapshot, origin: Square, owner: nat, dy: int, hasMoved: bool): seq<Square>
    requires 0 <= origin.x < s.xmax
  {
    PawnForward(s, origin, dy, hasMoved) + Hostiles(s, owner, PawnShootingRange(s, origin, dy))
  }

  /** A pawn's move is a forward square or a forward diagonal holding an enemy unit; an empty
      diagonal or one held by its own side is never offered. */
  lemma PawnMovesExact(s: Snapshot, origin: Square, owner: nat, dy: int, hasMoved: bool, sq: Square)
    requires 0 <= origin.x < s.xmax
    ensures sq in PawnMoves(s, origin, owner, dy, hasMoved) <==>
            sq in PawnForward(s, origin, dy, hasMoved) ||
            (InBounds(s, sq) && sq.y == origin.y + dy && (sq.x == origin.x - 1 || sq.x == origin.x + 1) &&
             HostileAt(s, sq, owner))
  {
    HostilesMembers(s, owner, PawnShootingRange(s, origin, dy), sq);
  }

  // ---------------------------------------------------------------------------------------
  // Threats and the king

  /** The shooting range of `u` standing on `origin`, by its rule. */
  function ThreatRange(s: Snapshot, u: Unit, origin: Square): set<Square>
    requires ValidKind(u.kind)
  {
    match u.kind
    case Pawn(dy) => Elems(PawnShootingRange(s, origin, dy))
    case Walker(dirs, limit) => Elems(WalkAll(s, origin, dirs, limit))
    case King => Elems(WalkAll(s, origin, KING_DIRS, 1))
  }

  /** The threats the cell `c` contributes against `owner`: its unit's shooting range when an
      enemy stands there. */
  function CellThreat(s: Snapshot, owner: nat, c: Square): set<Square>
    requires WellFormed(s) && InBounds(s, c)
  {
    if HostileAt(s, c, owner) then ThreatRange(s, At(s, c).unit.value, c) else {}
  }

  /** The union of the threats of all cells before `(x, y)` in row-major order. */
  function ThreatsBefore(s: Snapshot, owner: nat, x: nat, y: nat): set<Square>
    requires WellFormed(s) && x <= s.xmax && y <= s.ymax && (x == 0 || y < s.ymax)
    decreases y, x
  {
    if x == 0 then (if y == 0 then {} else ThreatsBefore(s, owner, s.xmax, y - 1))
    else ThreatsBefore(s, owner, x - 1, y) + CellThreat(s, owner, Square(x - 1, y))
  }

  /** An enemy of `owner` on `c` could capture into `sq`. */
  ghost predicate Menaces(s: Snapshot, owner: nat, c: Square, sq: Square)
    requires WellFormed(s)
  {
    InBounds(s, c) && HostileAt(s, c, owner) && sq in ThreatRange(s, At(s, c).unit.value, c)
  }

  ghost predicate RowMajorBefore(c: Square, x: int, y: int) {
    c.y < y || (c.y == y && c.x < x)
  }

  lemma {:induction false} ThreatsBeforeExact(s: Snapshot, owner: nat, x: nat, y: nat, sq: Square)
    requires WellFormed(s) && x <= s.xmax && y <= s.ymax && (x == 0 || y < s.ymax)
    ensures sq in ThreatsBefore(s, owner, x, y) <==>
            exists c :: Menaces(s, owner, c, sq) && RowMajorBefore(c, x, y)
    decreases y, x
  {
    if x == 0 {
      if y > 0 {
        ThreatsBeforeExact(s, owner, s.xmax, y - 1, sq);
        if exists c :: Menaces(s, owner, c, sq) && RowMajorBefore(c, x, y) {
          var c :| Menaces(s, owner, c, sq) && RowMajorBefore(c, x, y);
          assert RowMajorBefore(c, s.xmax, y - 1);
        }
      }
    } else {
      var cell := Square(x - 1, y);
      ThreatsBeforeExact(s, owner, x - 1, y, sq);
      if exists c :: Menaces(s, owner, c, sq) && RowMajorBefore(c, x, y) {
        var c :| Menaces(s, owner, c, sq) && RowMajorBefore(c, x, y);
        if c != cell {
          assert RowMajorBefore(c, x - 1, y);
        }
      }
      if sq in CellThreat(s, owner, cell) {
        assert Menaces(s, owner, cell, sq) && RowMajorBefore(cell, x, y);
      }
    }
  }

  /** Every square some enemy of `owner` could capture into. */
  function Threats(s: Snapshot, owner: nat): set<Square>
    requires WellFormed(s)
  {
    ThreatsBefore(s, owner, 0, s.ymax)
  }

  /** `retrieve_valid_moves` of a king: its one-step walker moves minus every square an enemy
      threatens on the same snapshot. */
  function KingMoves(s: Snapshot, origin: Square, owner: nat): set<Square>
    requires WellFormed(s)
  {
    Elems(WalkerMoves(s, origin, owner, KING_DIRS, 1)) - Threats(s, owner)
  }

  /** The king may move exactly to the one-step walker moves that no enemy on the snapshot
      could capture into. The snapshot still has the king on `origin`, so the king blocks
      enemy lines through its own square. */
  lemma KingMovesExact(s: Snapshot, origin: Square, owner: nat, sq: Square)
    requires WellFormed(s)
    ensures sq in KingMoves(s, origin, owner) <==>
            sq in WalkerMoves(s, origin, owner, KING_DIRS, 1) && forall c :: !Menaces(s, owner, c, sq)
  {
    ThreatsBeforeExact(s, owner, 0, s.ymax, sq);
    if exists c :: Menaces(s, owner, c, sq) {
      var c :| Menaces(s, owner, c, sq);
      assert RowMajorBefore(c, 0, s.ymax);
    }
  }

  /** A king move is a single king step onto an empty or enemy-held square. */
  lemma KingStepsOnce(s: Snapshot, origin: Square, owner: nat, sq: Square)
    requires WellFormed(s) && sq in KingMoves(s, origin, owner)
    ensures exists i :: 0 <= i < |KING_DIRS| && sq == Shift(origin, KING_DIRS[i])
    ensures InBounds(s, sq) && Takeable(s, sq, owner)
  {
    KingMovesExact(s, origin, owner, sq);
    WalkerMovesExact(s, origin, owner, KING_DIRS, 1, sq);
    var i, k :| 0 <= i < |KING_DIRS| && Reaches(s, origin, KING_DIRS[i], 1, k) && sq == Along(origin, KING_DIRS[i], k);
    assert k == 1;
  }

  // ---------------------------------------------------------------------------------------
  // Dispatch over the rule family

  /** `retrieve_valid_moves` of any unit standing on `origin`. */
  function Moves(s: Snapshot, u: Unit, origin: Square): set<Square>
    requires WellFormed(s) && ValidKind(u.kind) && InBounds(s, origin)
  {
    match u.kind
    case Pawn(dy) => Elems(PawnMoves(s, origin, u.owner, dy, u.hasMoved))
    case Walker(dirs, limit) => Elems(WalkerMoves(s, origin, u.owner, dirs, limit))
    case King => KingMoves(s, origin, u.owner)
  }

  /** Whatever its rule, a unit never moves onto a square held by its own side, and never
      off the board. */
  lemma NoSelfCapture(s: Snapshot, u: Unit, origin: Square, sq: Square)
    requires WellFormed(s) && ValidKind(u.kind) && InBounds(s, origin)
    requires sq in Moves(s, u, origin)
    ensures InBounds(s, sq) && Takeable(s, sq, u.owner)
  {
    match u.kind
    case Pawn(dy) =>
      PawnMovesExact(s, origin, u.owner, dy, u.hasMoved, sq);
      PawnForwardExact(s, origin, dy, u.hasMoved);
    case Walker(dirs, limit) =>
      WalkerMovesExact(s, origin, u.owner, dirs, limit, sq);
    case King =>
      KingStepsOnce(s, origin, u.owner, sq);
  }

  // ---------------------------------------------------------------------------------------
  // The rules as the source computes them, loop by loop

  /** The inner loop of `StraightMovingAndAttackingUnit.retrieve_squares_within_shooting_range`
      for one direction: step while within the limit, stop off the board, stop after the
      first occupied square. */
  method WalkDirection(s: Snapshot, origin: Square, d: Vector, limit: int) returns (squares: seq<Square>)
    requires d != Vector(0, 0)
    ensures squares == Walk(s, origin, d, limit)
  {
    squares := [];
    var stepCount := 1;
    var pos := Shift(origin, d);
    while limit > 0 ==> stepCount <= limit
      invariant squares + Ray(s, pos, d, limit, stepCount) == Walk(s, origin, d, limit)
      decreases Remaining(s, pos, d)
    {
      ghost var here := stepCount;
      stepCount := stepCount + 1;
      if !InBounds(s, pos) {
        break;
      }
      var node := At(s, pos);
      if node.unitId > 0 {
        squares := squares + [pos];
        break;
      }
      assert Ray(s, pos, d, limit, here) == [pos] + Ray(s, Shift(pos, d), d, limit, stepCount);
      squares := squares + [pos];
      pos := Shift(pos, d);
    }
  }

  /** `StraightMovingAndAttackingUnit.retrieve_squares_within_shooting_range`: the walks of
      all direction vectors, concatenated in order. */
  method StraightShootingRange(s: Snapshot, origin: Square, dirs: seq<Vector>, limit: int)
    returns (result: seq<Square>)
    requires NonZero(dirs)
    ensures result == WalkAll(s, origin, dirs, limit)
  {
    result := [];
    for i := 0 to |dirs|
      invariant result == WalkAll(s, origin, dirs[..i], limit)
    {
      var squares := WalkDirection(s, origin, dirs[i], limit);
      assert dirs[..i + 1][..i] == dirs[..i];
      result := result + squares;
    }
    assert dirs[..|dirs|] == dirs;
  }

  /** `StraightMovingAndAttackingUnit.retrieve_valid_moves`: the shooting range without the
      squares held by the walker's own side. */
  method StraightValidMoves(s: Snapshot, origin: Square, owner: nat, dirs: seq<Vector>, limit: int)
    returns (squares: seq<Square>)
    requires NonZero(dirs)
    ensures squares == WalkerMoves(s, origin, owner, dirs, limit)
  {
    var range := StraightShootingRange(s, origin, dirs, limit);
    squares := [];
    for i := 0 to |range|
      invariant squares == Keep(s, owner, range[..i])
    {
      var sq := range[i];
      var node := At(s, sq);
      assert range[..i + 1][..i] == range[..i];
      if node.unitId == 0 || (node.unit.Some? && node.unit.value.owner != owner) {
        squares := squares + [sq];
      }
    }
    assert range[..|range|] == range;
  }

  /** `AbstractPawnUnit.retrieve_squares_within_shooting_range`: the two forward diagonals
      that are on the board. */
  method PawnShootingSquares(s: Snapshot, origin: Square, dy: int) returns (result: seq<Square>)
    ensures result == PawnShootingRange(s, origin, dy)
  {
    result := [];
    var offsets := [1, -1];
    for i := 0 to 2
      invariant i <= 1 ==> result == (if i == 1 && InBounds(s, Square(origin.x + 1, origin.y + dy))
                                      then [Square(origin.x + 1, origin.y + dy)] else [])
      invariant i == 2 ==> result == PawnShootingRange(s, origin, dy)
    {
      var x, y := origin.x + offsets[i], origin.y + dy;
      if x < 0 || x >= s.xmax || y < 0 || y >= s.ymax {
        continue;
      }
      result := result + [Square(x, y)];
    }
  }

  /** The forward loop of `AbstractPawnUnit.retrieve_valid_moves`: up to two steps before the
      first move and one after; an occupied square is examined again without advancing. */
  method PawnAdvance(s: Snapshot, origin: Square, dy: int, hasMoved: bool) returns (squares: seq<Square>)
    requires 0 <= origin.x < s.xmax
    ensures squares == PawnForward(s, origin, dy, hasMoved)
  {
    var x, y := origin.x, origin.y + dy;
    var maxSteps := if hasMoved then 1 else 2;
    var step := 1;
    squares := [];
    while step <= maxSteps
      invariant 1 <= step <= maxSteps + 1
      invariant squares + Advance(s, x, y, dy, step, maxSteps) == PawnForward(s, origin, dy, hasMoved)
    {
      step := step + 1;
      if y < 0 || y >= s.ymax {
        break;
      }
      var otherUnitId := At(s, Square(x, y)).unitId;
      if otherUnitId == 0 {
        squares := squares + [Square(x, y)];
        y := y + dy;
      }
    }
  }

  /** `AbstractPawnUnit.retrieve_valid_moves`: the forward advance, then the diagonals that
      hold an enemy unit. */
  method PawnValidMoves(s: Snapshot, origin: Square, owner: nat, dy: int, hasMoved: bool)
    returns (result: seq<Square>)
    requires 0 <= origin.x < s.xmax
    ensures result == PawnMoves(s, origin, owner, dy, hasMoved)
  {
    result := PawnAdvance(s, origin, dy, hasMoved);

    var range := PawnShootingSquares(s, origin, dy);
    var captures := [];
    for i := 0 to |range|
      invariant captures == Hostiles(s, owner, range[..i])
    {
      var sq := range[i];
      var node := At(s, sq);
      assert range[..i + 1][..i] == range[..i];
      if node.unitId == 0 {
        continue;
      }
      if node.unit.Some? && node.unit.value.owner != owner {
        captures := captures + [sq];
      }
    }
    assert range[..|range|] == range;
    result := result + captures;
  }

  /** `retrieve_squares_within_shooting_range` of any unit, by its rule. */
  method ShootingRangeOf(s: Snapshot, u: Unit, origin: Square) returns (result: set<Square>)
    requires ValidKind(u.kind)
    ensures result == ThreatRange(s, u, origin)
  {
    match u.kind
    case Pawn(dy) =>
      var squares := PawnShootingSquares(s, origin, dy);
      result := Elems(squares);
    case Walker(dirs, limit) =>
      var squares := StraightShootingRange(s, origin, dirs, limit);
      result := Elems(squares);
    case King =>
      var squares := StraightShootingRange(s, origin, KING_DIRS, 1);
      result := Elems(squares);
  }

  /** `KingUnit.retrieve_valid_moves`: the one-step moves, then a row-major scan of the
      snapshot removing the shooting range of every enemy unit. */
  method KingValidMoves(s: Snapshot, origin: Square, owner: nat) returns (result: set<Square>)
    requires WellFormed(s)
    ensures result == KingMoves(s, origin, owner)
  {
    var regular := StraightValidMoves(s, origin, owner, KING_DIRS, 1);
    result := Elems(regular);
    for y := 0 to s.ymax
      invariant result == Elems(regular) - ThreatsBefore(s, owner, 0, y)
    {
      for x := 0 to s.xmax
        invariant result == Elems(regular) - ThreatsBefore(s, owner, x, y)
      {
        var node := At(s, Square(x, y));
        if node.unitId > 0 {
          var unit := node.unit.value;
          if unit.owner != owner {
            var dangerous := ShootingRangeOf(s, unit, Square(x, y));
            result := result - dangerous;
          }
        }
      }
    }
  }

  /** `retrieve_valid_moves` of any unit, by its rule. */
  method RetrieveValidMoves(s: Snapshot, u: Unit, origin: Square) returns (result: set<Square>)
    requires WellFormed(s) && ValidKind(u.kind) && InBounds(s, origin)
    ensures result == Moves(s, u, origin)
  {
    match u.kind
    case Pawn(dy) =>
      var squares := PawnValidMoves(s, origin, u.owner, dy, u.hasMoved);
      result := Elems(squares);
    case Walker(dirs, limit) =>
      var squares := StraightValidMoves(s, origin, u.owner, dirs, limit);
      result := Elems(squares);
    case King =>
      result := KingValidMoves(s, origin, u.owner);
  }
}
