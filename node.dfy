/**
  A search vertex of the sampling planner: position, heuristic cost-to-go,
  parent id, and the neighbour ids with their edge costs.
*/
module Nodes {
  import opened Wrappers
  import opened Geometry

  /** A score that starts at Python's `inf`. */
  datatype Score = Finite(value: real) | Infinity

  class Node {
    const id: string
    const x: real
    const y: real
    const pos: Point
    /** Distance to the goal, computed once at construction. */
    const h: real
    /** Id of the least-cost parent, `None` for the root. */
    const parent: Option<string>
    var neighbors: map<string, real>
    var gScore: Score
    var fScore: Score
    /** The planner whose tree holds this node. */
    ghost const owner: object

    constructor (id_: string, x_: real, y_: real, goalPos: Point, sqrt: real -> real, ghost owner_: object,
                 parent_: Option<string> := None)
      ensures id == id_ && x == x_ && y == y_ && pos == Point(x_, y_) && owner == owner_
      ensures h == DistToPoint(goalPos, sqrt)
      ensures parent == parent_
      ensures neighbors == map[]
      ensures gScore == Infinity && fScore == Infinity
    {
      id := id_;
      x := x_;
      y := y_;
      pos := Point(x_, y_);
      h := Dist(Point(x_, y_), goalPos, sqrt);
      parent := parent_;
      owner := owner_;
      neighbors := map[];
      gScore := Infinity;
      fScore := Infinity;
    }

    /** Inserts or overwrites the edge cost to neighbour `id_`. */
    method SetNeighbor(id_: string, cost: real)
      modifies this`neighbors
      ensures neighbors == old(neighbors)[id_ := cost]
    {
      neighbors := neighbors[id_ := cost];
    }

    /** Euclidean distance from this node to `p`. */
    function DistToPoint(p: Point, sqrt: real -> real): real {
      Dist(pos, p, sqrt)
    }

    /** With an exact square root, `DistToPoint` is non-negative and zero exactly at `pos`. */
    lemma DistToPointZero(p: Point, sqrt: real -> real)
      requires ExactSqrt(sqrt)
      ensures 0.0 <= DistToPoint(p, sqrt)
      ensures DistToPoint(p, sqrt) == 0.0 <==> p == pos
    {
      DistZero(pos, p, sqrt);
    }
  }

  /** Setting the same neighbour twice keeps the last cost; setting it again with the same cost changes nothing. */
  method SetNeighborTwice(n: Node, id: string, c1: real, c2: real)
    modifies n`neighbors
    ensures n.neighbors == old(n.neighbors)[id := c2]
    ensures c1 == c2 ==> n.neighbors == old(n.neighbors)[id := c1]
  {
    n.SetNeighbor(id, c1);
    n.SetNeighbor(id, c2);
  }
}
