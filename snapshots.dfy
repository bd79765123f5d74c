/** The immutable board view a movement rule is evaluated against, and the builder that
    fills it cell by cell. */
module Snapshots {
  import opened Common
  import opened Pieces

  /** One cell of a snapshot: the occupant's id (0 for none) and its registry entry. */
  datatype Node = Node(unitId: nat, unit: Option<Unit>)

  /** A `xmax × ymax` board; cells missing from `nodes` read as empty. */
  datatype Snapshot = Snapshot(xmax: nat, ymax: nat, nodes: map<Square, Node>)

  predicate InBounds(s: Snapshot, sq: Square) {
    0 <= sq.x < s.xmax && 0 <= sq.y < s.ymax
  }

  /** A node agrees with the registry: id 0 carries no unit, any other id carries one,
      and that unit's rule is one the engine supports. */
  predicate NodeOk(n: Node) {
    (n.unitId == 0 <==> n.unit.None?) && (n.unit.Some? ==> ValidKind(n.unit.value.kind))
  }

  /** Every stored cell is on the board and consistent. */
  ghost predicate WellFormed(s: Snapshot) {
    forall sq :: sq in s.nodes ==> InBounds(s, sq) && NodeOk(s.nodes[sq])
  }

  /** The cell at an on-board square. */
  function At(s: Snapshot, sq: Square): (n: Node)
    requires InBounds(s, sq)
    ensures WellFormed(s) ==> NodeOk(n)
  {
    if sq in s.nodes then s.nodes[sq] else Node(0, None)
  }

  /** `get_node`: a stored cell is returned as stored, an unstored on-board cell reads as
      empty, and an off-board coordinate is an error. */
  function GetNode(s: Snapshot, x: int, y: int): (r: Result<Node>)
    ensures WellFormed(s) ==> (r.Ok? <==> InBounds(s, Square(x, y)))
    ensures r.Ok? && InBounds(s, Square(x, y)) ==> r.value == At(s, Square(x, y))
    ensures r.Err? ==> r.error == OutOfBounds
  {
    var sq := Square(x, y);
    if sq in s.nodes then Ok(s.nodes[sq])
    else if InBounds(s, sq) then Ok(Node(0, None))
    else Err(OutOfBounds)
  }

  /** Collects the cells of a snapshot before it is frozen. */
  class SnapshotBuilder {
    const xmax: nat
    const ymax: nat
    var nodes: map<Square, Node>

    constructor (xmax: nat, ymax: nat)
      ensures this.xmax == xmax && this.ymax == ymax && nodes == map[]
    {
      this.xmax := xmax;
      this.ymax := ymax;
      nodes := map[];
    }

    /** `set_node`: records an on-board cell; an off-board one is refused and nothing changes. */
    method SetNode(x: int, y: int, unitId: nat, unit: Option<Unit>) returns (r: Outcome)
      modifies this
      ensures 0 <= x < xmax && 0 <= y < ymax ==>
                r == Pass && nodes == old(nodes)[Square(x, y) := Node(unitId, unit)]
      ensures !(0 <= x < xmax && 0 <= y < ymax) ==> r == Fail(OutOfBounds) && nodes == old(nodes)
    {
      if 0 <= x < xmax && 0 <= y < ymax {
        nodes := nodes[Square(x, y) := Node(unitId, unit)];
        r := Pass;
      } else {
        r := Fail(OutOfBounds);
      }
    }

    /** The `snapshot` property: the frozen view of what has been collected. It has the
        builder's dimensions, and every recorded on-board cell reads back as recorded. */
    function Snap(): (r: Snapshot)
      reads this
      ensures r.xmax == xmax && r.ymax == ymax
      ensures forall sq :: sq in nodes && InBounds(r, sq) ==> At(r, sq) == nodes[sq]
    {
      Snapshot(xmax, ymax, nodes)
    }
  }
}
