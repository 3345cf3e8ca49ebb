/**
  The rapidly-exploring random tree planner: the tree is grown from the start
  node, one step of fixed length towards each sample, until a node lands
  within the goal tolerance; the path is then read off the parent links.
*/
module Rrt {
  import opened Wrappers
  import opened Geometry
  import opened Ids
  import opened Nodes
  import opened Obstacles
  import opened SamplingPlanners
  import opened Tree

  function Max(a: int, b: int): int {
    if a < b then b else a
  }

  // ---------------------------------------------------------------- motion

  /** `nearest + step * (sample - nearest) / d`. */
  function Motion(nearest: Point, sample: Point, d: real, step: real): Point
    requires d != 0.0
  {
    Point(nearest.x + step * (sample.x - nearest.x) / d, nearest.y + step * (sample.y - nearest.y) / d)
  }

  /** One iteration keeps the tree size within the loop's bound, and one past it when the goal is added. */
  lemma SizeStep(n0: int, before: int, after: int, maxSize: int)
    requires n0 <= before <= Max(n0, maxSize) && before < maxSize && before <= after <= before + 2
    ensures n0 <= after <= Max(n0, maxSize + 1)
    ensures after <= before + 1 ==> after <= Max(n0, maxSize)
  {
  }

  lemma DivAsScale(step: real, a: real, d: real)
    requires d != 0.0
    ensures step * a / d == Mul(step / d, a)
    ensures Mul(step / d, d) == step
  {
  }

  lemma ScaledSquare(k: real, a: real)
    ensures Square(Mul(k, a)) == Mul(Square(k), Square(a))
  {
  }

  lemma ScaledSum(k: real, a: real, b: real)
    ensures Mul(k, a) + Mul(k, b) == Mul(k, a + b)
  {
  }

  lemma ScaledCross(t: real, a: real, b: real)
    ensures Mul(Mul(t, a), b) == Mul(Mul(t, b), a)
    ensures Mul(Mul(t, a), a) + Mul(Mul(t, b), b) == Mul(t, Square(a) + Square(b))
    ensures Mul(t, Mul(a, b)) == Mul(Mul(t, a), b)
  {
  }

  lemma NegSquare(a: real)
    ensures Square(-a) == Square(a)
  {
  }

  lemma NegMul(t: real, a: real)
    ensures -Mul(t, a) == Mul(t, -a)
  {
  }

  /**
    When `d` is the distance from `nearest` to `sample`, the new point is
    exactly `step` away from `nearest`, on the ray towards `sample`: the
    offset is parallel to `sample - nearest` and has dot product `step * d`
    with it. This holds even when the sample is closer than `step`.
  */
  lemma MotionStep(nearest: Point, sample: Point, d: real, step: real)
    requires 0.0 < d && Square(d) == SqDist(nearest, sample)
    ensures var q := Motion(nearest, sample, d, step);
      && SqDist(nearest, q) == Square(step)
      && Mul(q.x - nearest.x, sample.y - nearest.y) == Mul(q.y - nearest.y, sample.x - nearest.x)
      && Mul(q.x - nearest.x, sample.x - nearest.x) + Mul(q.y - nearest.y, sample.y - nearest.y) == Mul(step, d)
  {
    var q := Motion(nearest, sample, d, step);
    var t := step / d;
    var dx, dy := sample.x - nearest.x, sample.y - nearest.y;
    assert q.x - nearest.x == Mul(t, dx) && q.y - nearest.y == Mul(t, dy) && Mul(t, d) == step by {
      DivAsScale(step, dx, d);
      DivAsScale(step, dy, d);
    }
    assert Square(dx) + Square(dy) == Square(d) by {
      NegSquare(dx);
      NegSquare(dy);
      assert nearest.x - sample.x == -dx && nearest.y - sample.y == -dy;
    }
    assert SqDist(nearest, q) == Square(step) by {
      NegMul(t, dx);
      NegMul(t, dy);
      assert nearest.x - q.x == Mul(t, -dx) && nearest.y - q.y == Mul(t, -dy);
      ScaledSquare(t, -dx);
      ScaledSquare(t, -dy);
      NegSquare(dx);
      NegSquare(dy);
      ScaledSum(Square(t), Square(dx), Square(dy));
      ScaledSquare(t, d);
    }
    assert Mul(q.x - nearest.x, dy) == Mul(q.y - nearest.y, dx) by {
      ScaledCross(t, dx, dy);
    }
    assert Mul(q.x - nearest.x, dx) + Mul(q.y - nearest.y, dy) == Mul(step, d) by {
      ScaledCross(t, dx, dy);
      ScaledCross(t, d, d);
    }
  }

  /** The same with the caller's square root: the new node is at distance `step` from `nearest`. */
  lemma MotionDist(nearest: Point, sample: Point, step: real, sqrt: real -> real)
    requires ExactSqrt(sqrt) && nearest != sample && 0.0 <= step
    ensures 0.0 < Dist(nearest, sample, sqrt)
    ensures Dist(nearest, Motion(nearest, sample, Dist(nearest, sample, sqrt), step), sqrt) == step
  {
    var d := Dist(nearest, sample, sqrt);
    DistZero(nearest, sample, sqrt);
    SqDistZero(nearest, sample);
    MotionStep(nearest, sample, d, step);
    SqrtOfSquare(step, sqrt);
  }

  // ---------------------------------------------------------------- the planner

  /** How a run of the planner ends. */
  datatype Outcome =
    | PathFound
    | MaxNodesReached
    /** the oracle ran out of branch decisions or uniform samples */
    | DrawsExhausted
    /** the goal branch fired on the first iteration with the goal in collision */
    | SampleUnbound
    /** the sample coincides with its nearest node, where the step divides by zero */
    | ZeroDistance

  /** What one extension of the tree did. */
  datatype StepResult =
    | Blocked
    | Degenerate
    | Added(id: string)
    | ReachedGoal(id: string, goalId: string)

  /**
    Picking the sample: on the goal branch the goal, unless it is in
    collision, in which case the previous sample stays; otherwise the next
    collision-free uniform draw. `exhausted` says the draws ran out first.
  */
  method PickSample(obs: seq<Obstacle>, goalPos: Point, goalBranch: bool, draws: seq<Point>, di: nat,
                    samplePos: Option<Point>) returns (s: Option<Point>, next: nat, exhausted: bool)
    requires di <= |draws|
    requires forall j :: di <= j < |draws| ==> InCSpace(draws[j])
    ensures di <= next <= |draws|
    ensures goalBranch ==> !exhausted && next == di
    ensures goalBranch && !PointBlocked(obs, goalPos) ==> s == Some(goalPos)
    ensures goalBranch && PointBlocked(obs, goalPos) ==> s == samplePos
    ensures !goalBranch && !exhausted ==>
      && s.Some? && next > di && s.value == draws[next - 1]
      && InCSpace(s.value) && !PointBlocked(obs, s.value)
      && forall j :: di <= j < next - 1 ==> PointBlocked(obs, draws[j])
    ensures !goalBranch && exhausted ==> next == |draws| && forall j :: di <= j < |draws| ==> PointBlocked(obs, draws[j])
  {
    s, next, exhausted := samplePos, di, false;
    if goalBranch {
      var blocked := IsInCollisionPoint(obs, goalPos);
      if !blocked {
        s := Some(goalPos);
      }
    } else {
      var p;
      p, next := Sample(obs, draws, di);
      exhausted := p.None?;
      if !exhausted {
        s := p;
      }
    }
  }

  class RRT {
    const startPos: Point
    const goalPos: Point
    const goalTol: real
    const step: real
    const obs: seq<Obstacle>
    const sqrt: real -> real
    var nodes: map<string, Node>
    ghost var edges: map<string, map<string, real>>
    var path: seq<string>

    ghost predicate Valid()
      reads this`nodes, this`edges, nodes.Values
    {
      PlannerOk(nodes, edges, startPos, goalPos, sqrt) && Owned(nodes, this)
    }

    /** The shared constructor with the obstacles already loaded: one root node at the start. */
    constructor (obs: seq<Obstacle>, sqrt: real -> real, startPos: Point := Point(-0.5, -0.5),
                 goalPos: Point := Point(0.5, 0.5), step: real := 0.05, goalTol: real := 0.05)
      ensures this.startPos == startPos && this.goalPos == goalPos && this.goalTol == goalTol
      ensures this.step == step && this.obs == obs && this.sqrt == sqrt
      ensures nodes.Keys == {Root} && fresh(nodes[Root])
      ensures nodes[Root].pos == startPos && nodes[Root].parent == None && nodes[Root].neighbors == map[]
      ensures path == []
      ensures Valid()
    {
      this.startPos := startPos;
      this.goalPos := goalPos;
      this.goalTol := goalTol;
      this.step := step;
      this.obs := obs;
      this.sqrt := sqrt;
      new;
      var root := new Node(Root, startPos.x, startPos.y, goalPos, sqrt, this);
      nodes := map[Root := root];
      edges := map[Root := map[]];
      path := [];
      assert IdSet(1) == {Root};
    }

    /**
      Inserts node `str(len(nodes) + 1)` at `p` with parent `parentId`, and
      records the edge between them at both ends with the distance as cost.
    */
    method InsertNode(p: Point, parentId: string) returns (id: string)
      requires parentId in nodes && parentId in edges && NatToString(|nodes| + 1) !in nodes
      requires Coupled(nodes, edges) && forall k :: k in nodes ==> nodes[k].id == k
      modifies this`nodes, this`edges, {nodes[parentId]}`neighbors
      ensures id == NatToString(old(|nodes|) + 1) && id in nodes && fresh(nodes[id]) && nodes[id].owner == this
      ensures Inserted(old(nodes), nodes, old(edges), edges, id, p, parentId, goalPos, sqrt)
      ensures path == old(path)
    {
      id := NatToString(|nodes| + 1);
      var parent := nodes[parentId];
      var cost := Dist(p, parent.pos, sqrt);
      ghost var nodes0 := nodes;
      assert forall k :: k in nodes0 && k != parentId ==> nodes0[k] != parent;
      var node := new Node(id, p.x, p.y, goalPos, sqrt, this, Some(parentId));
      assert forall k :: k in nodes0 ==> nodes0[k] != node;
      parent.neighbors := parent.neighbors[id := cost];
      node.neighbors := node.neighbors[parentId := cost];
      nodes := nodes[id := node];
      edges := Linked(edges, id, parentId, cost);
    }

    /**
      Inserts the next node at `p` under `parentId` and links the two; the
      loop does this for the new node and, in the goal step, for the goal node alike.
    */
    method AddNode(p: Point, parentId: string) returns (id: string)
      requires Valid() && parentId in nodes
      modifies this`nodes, this`edges, {nodes[parentId]}`neighbors
      ensures Grown(old(nodes), nodes, id, p, parentId) && fresh(nodes[id])
      ensures path == old(path) && Valid()
    {
      KeysAdd(nodes, NatToString(|nodes| + 1));
      assert parentId in edges;
      id := InsertNode(p, parentId);
      InsertedKeepsPlanner(old(nodes), nodes, old(edges), edges, id, p, parentId, startPos, goalPos, sqrt);
      OwnedAdd(old(nodes), nodes, id, this);
    }

    /** `_neartest_node`: the first node in id order among those nearest to `p`, with its distance. */
    function NearestNode(p: Point): (r: (string, real))
      requires Valid()
      reads this`nodes, this`edges, nodes.Values
      ensures r.0 in nodes && r.1 == Dist(nodes[r.0].pos, p, sqrt)
      ensures forall k :: k in nodes ==> r.1 <= Dist(nodes[k].pos, p, sqrt)
      ensures forall k :: k in nodes && IdNum(k) < IdNum(r.0) ==> r.1 < Dist(nodes[k].pos, p, sqrt)
    {
      var ns, sq := nodes, sqrt;
      var key := (x: string) => if x in ns then Dist(ns[x].pos, p, sq) else 0.0;
      NearestInIdOrder(ns, key);
      var id := Knn(1, IdSeq(|ns|), key)[0];
      (id, Dist(ns[id].pos, p, sq))
    }

    /**
      One iteration of the planner's loop for a given sample position: step from
      the nearest node towards the sample and, unless the new position is in
      collision, grow the tree there.
    */
    method Extend(samplePos: Point) returns (r: StepResult)
      requires Valid()
      modifies this`nodes, this`edges, this`path, nodes.Values`neighbors
      ensures Valid()
      ensures var (nearest, d) := old(NearestNode(samplePos));
        && (r.Degenerate? <==> d == 0.0)
        && (r.Blocked? <==> d != 0.0 && PointBlocked(obs, Motion(old(nodes)[nearest].pos, samplePos, d, step)))
        && (r.Added? ==>
              && !Closer(Motion(old(nodes)[nearest].pos, samplePos, d, step), goalPos, goalTol)
              && Grown(old(nodes), nodes, r.id, Motion(old(nodes)[nearest].pos, samplePos, d, step), nearest))
        && (r.ReachedGoal? ==>
              GrownToGoal(old(nodes), nodes, r.id, Motion(old(nodes)[nearest].pos, samplePos, d, step), nearest, r.goalId, goalPos))
      ensures r.Blocked? || r.Degenerate? ==> nodes == old(nodes)
      ensures Kept(old(nodes), nodes) && (forall k :: k in nodes && k !in old(nodes) ==> fresh(nodes[k]))
      ensures r.Added? ==> |nodes| == old(|nodes|) + 1
      ensures r.ReachedGoal? ==> |nodes| == old(|nodes|) + 2
      ensures !r.ReachedGoal? ==> path == old(path) && NewClear(old(nodes), nodes, obs, {})
      ensures r.ReachedGoal? ==> AtGoal(nodes, path, goalPos, goalTol) && NewClear(old(nodes), nodes, obs, {NatToString(|nodes|)})
    {
      var nearest, d := NearestNode(samplePos).0, NearestNode(samplePos).1;
      if d == 0.0 {
        r := Degenerate;
      } else {
        var newPos := Motion(nodes[nearest].pos, samplePos, d, step);
        var blocked := IsInCollisionPoint(obs, newPos);
        if blocked {
          r := Blocked;
        } else {
          r := Grow(newPos, nearest);
          if r.Added? {
            GrownFacts(old(nodes), nodes, r.id, newPos, nearest, obs);
          } else {
            GrownToGoalFacts(old(nodes), nodes, r.id, newPos, nearest, r.goalId, goalPos, obs);
          }
        }
      }
    }

    /**
      Adds a node at `p` as a child of `parentId`; when `p` is within the goal
      tolerance, also adds the goal node under it and reconstructs the path.
    */
    method Grow(p: Point, parentId: string) returns (r: StepResult)
      requires Valid() && parentId in nodes
      modifies this`nodes, this`edges, this`path, {nodes[parentId]}`neighbors
      ensures Valid()
      ensures r.Added? || r.ReachedGoal?
      ensures r.Added? <==> !Closer(p, goalPos, goalTol)
      ensures r.Added? ==> Grown(old(nodes), nodes, r.id, p, parentId) && path == old(path)
      ensures r.ReachedGoal? ==>
        GrownToGoal(old(nodes), nodes, r.id, p, parentId, r.goalId, goalPos) && AtGoal(nodes, path, goalPos, goalTol)
      ensures forall k :: k in nodes && k !in old(nodes) ==> fresh(nodes[k])
    {
      if !Closer(p, goalPos, goalTol) {
        var id := AddNode(p, parentId);
        r := Added(id);
      } else {
        var id, goalId := GrowToGoal(p, parentId);
        r := ReachedGoal(id, goalId);
      }
    }

    /**
      Adds a node at `p`, which lies within the goal tolerance, as a child of
      `parentId`, then the goal node under it, and reconstructs the path.
    */
    method GrowToGoal(p: Point, parentId: string) returns (id: string, goalId: string)
      requires Valid() && parentId in nodes && Closer(p, goalPos, goalTol)
      modifies this`nodes, this`edges, this`path, {nodes[parentId]}`neighbors
      ensures Valid()
      ensures GrownToGoal(old(nodes), nodes, id, p, parentId, goalId, goalPos) && AtGoal(nodes, path, goalPos, goalTol)
      ensures id in nodes && fresh(nodes[id]) && goalId in nodes && fresh(nodes[goalId])
    {
      id := AddNode(p, parentId);
      ghost var nodes1 := nodes;
      goalId := ReachGoal(id);
      GrownToGoalReached(old(nodes), nodes1, nodes, id, p, parentId, goalId, goalPos, goalTol, path);
    }

    /** Adds the goal node as a child of `id` and reconstructs the path to it. */
    method ReachGoal(id: string) returns (goalId: string)
      requires Valid() && id in nodes
      modifies this`nodes, this`edges, this`path, {nodes[id]}`neighbors
      ensures Grown(old(nodes), nodes, goalId, goalPos, id) && fresh(nodes[goalId])
      ensures Valid() && ParentsOk(nodes)
      ensures path == Chain(nodes, goalId)
    {
      goalId := AddNode(goalPos, id);
      ReconstructPath(nodes[goalId]);
    }

    /** `_reconstruct_path`: the ids from the root to `current`, stored in `path`. */
    method ReconstructPath(current: Node)
      requires Valid() && current.id in nodes && nodes[current.id] == current
      modifies this`path
      ensures nodes == old(nodes) && edges == old(edges) && Valid()
      ensures path == Chain(nodes, current.id)
    {
      path := WalkToRoot(nodes, current);
    }

    /** The walk of `_reconstruct_path`: prepends each parent id until the root is reached. */
    static method WalkToRoot(nodes: map<string, Node>, current: Node) returns (walk: seq<string>)
      requires KeysOk(nodes) && ParentsOk(nodes) && current.id in nodes && nodes[current.id] == current
      ensures walk == Chain(nodes, current.id)
    {
      var cur := current;
      walk := [cur.id];
      ghost var tail: seq<string> := [];
      while cur.parent != None
        invariant cur.id in nodes && nodes[cur.id] == cur
        invariant walk == [cur.id] + tail
        invariant Chain(nodes, cur.id) + tail == Chain(nodes, current.id)
        decreases IdNum(cur.id)
      {
        var p := nodes[cur.id].parent.value;
        ChainPrepend(nodes, cur.id, tail);
        walk := [p] + walk;
        tail := [cur.id] + tail;
        cur := nodes[p];
      }
    }

    /**
      The body of the planner's loop once the iteration is granted: pick a
      sample, then extend the tree towards it, taking the goal step when it lands near the goal.
      `stop` is the outcome when the loop ends in this iteration.
    */
    method Iteration(goalBranch: bool, draws: seq<Point>, di: nat, samplePos: Option<Point>)
      returns (next: nat, sample: Option<Point>, stop: Option<Outcome>)
      requires Valid() && di <= |draws|
      requires forall j :: di <= j < |draws| ==> InCSpace(draws[j])
      modifies this`nodes, this`edges, this`path, (iset n: Node | n.owner == this)`neighbors
      ensures Valid() && di <= next <= |draws|
      ensures Kept(old(nodes), nodes)
      ensures stop != Some(PathFound) ==>
        && old(|nodes|) <= |nodes| <= old(|nodes|) + 1
        && path == old(path) && NewClear(old(nodes), nodes, obs, {})
      ensures stop == Some(PathFound) ==>
        && |nodes| == old(|nodes|) + 2
        && AtGoal(nodes, path, goalPos, goalTol) && NewClear(old(nodes), nodes, obs, {NatToString(|nodes|)})
      ensures stop != Some(MaxNodesReached)
    {
      var s, exhausted;
      s, next, exhausted := PickSample(obs, goalPos, goalBranch, draws, di, samplePos);
      sample := s;
      if exhausted {
        return next, sample, Some(DrawsExhausted);
      }
      if s.None? {
        return next, sample, Some(SampleUnbound);
      }
      var r := Extend(s.value);
      stop := if r.ReachedGoal? then Some(PathFound) else if r.Degenerate? then Some(ZeroDistance) else None;
    }

    /**
      The planner's main loop. `biases[i]` says whether the i-th iteration
      takes the goal branch (`randint(0, 10) == 0`); `draws` holds the uniform
      points the sampler would draw, in order.
    */
    method PlanRrt(biases: seq<bool>, draws: seq<Point>, maxSize: int := 500) returns (outcome: Outcome)
      requires Valid()
      requires forall j :: 0 <= j < |draws| ==> InCSpace(draws[j])
      modifies this`nodes, this`edges, this`path, (iset n: Node | n.owner == this)`neighbors
      ensures Valid()
      ensures old(|nodes|) <= |nodes| <= Max(old(|nodes|), maxSize + 1)
      ensures Kept(old(nodes), nodes)
      ensures outcome == MaxNodesReached ==> maxSize <= |nodes|
      ensures maxSize <= old(|nodes|) ==> outcome == MaxNodesReached && nodes == old(nodes)
      ensures outcome != PathFound ==> path == old(path) && NewClear(old(nodes), nodes, obs, {})
      ensures outcome == PathFound ==> AtGoal(nodes, path, goalPos, goalTol) && NewClear(old(nodes), nodes, obs, {NatToString(|nodes|)})
    {
      var bi, di := 0, 0;
      var samplePos: Option<Point> := None;
      while |nodes| < maxSize
        invariant Valid()
        invariant 0 <= bi <= |biases| && 0 <= di <= |draws|
        invariant old(|nodes|) <= |nodes| <= Max(old(|nodes|), maxSize)
        invariant Kept(old(nodes), nodes)
        invariant maxSize <= old(|nodes|) ==> nodes == old(nodes)
        invariant path == old(path) && NewClear(old(nodes), nodes, obs, {})
        decreases |biases| - bi
      {
        if bi == |biases| {
          return DrawsExhausted;
        }
        ghost var before := nodes;
        var next, sample, stop := Iteration(biases[bi], draws, di, samplePos);
        bi, di, samplePos := bi + 1, next, sample;
        KeptTrans(old(nodes), before, nodes);
        SizeStep(old(|nodes|), |before|, |nodes|, maxSize);
        if stop == Some(PathFound) {
          NewClearTrans(old(nodes), before, nodes, obs, {NatToString(|nodes|)});
          return PathFound;
        }
        NewClearTrans(old(nodes), before, nodes, obs, {});
        if stop.Some? {
          return stop.value;
        }
      }
      return MaxNodesReached;
    }
  }

}
