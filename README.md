# RRT sampling planner: a verified model

This project models, in Dafny, the sampling-based motion planner of the
"Sampling-Based Planning" assignment. The planner is a rapidly-exploring random tree (RRT)
in the square configuration space `[-0.5, 0.5]²` with circular obstacles.

The model covers:

- **`Node`** (`node.py`): a class.
  - Its position, heuristic `h` and parent are fixed at construction.
  - Its `neighbors` map and its two scores are mutable fields.
  - `SetNeighbor` is the in-place map insert.
- **`Obstacle`** (`obstacle.py`): a value, since its fields never change.
  - The strict point test is decided on squared distances.
  - The line test is taken literally as written, with its epsilon-guarded denominator.
- **The shared planner helpers** (`sampling_planners.py`):
  - point and line collision over the obstacle list, as early-return loops proved equal to an existential;
  - rejection sampling over a sequence of uniform draws;
  - the k-nearest query `sorted(nodes, key)[:k]`, with a stable sort;
  - the shape of the node dictionary: ids `"1"` .. `str(n)`;
  - the edge de-duplication loop of `_save_edges`, as nested loops that build the rows it would write.
- **`RRT`** (`rrt.py`): a class holding the node dictionary and the path.
  - The constructor seeds the root node.
  - `PlanRrt` is the planner's `while` loop.
  - `NearestNode` is `_neartest_node`, and `Motion` is `_motion`.
  - `ReconstructPath` walks the parent links with a loop.

The classes keep an invariant `RRT.Valid()`. It says:

- the keys are exactly `"1"` .. `str(n)`, with every node stored under its own id;
- the root `"1"` sits at the start and has no parent;
- every other node's parent is a node with a smaller id, so parent links are acyclic and lead to the root;
- `h` is the distance to the goal;
- every neighbour entry is a parent link in one direction or the other, every parent link is recorded at both ends, and every edge cost is the distance between its endpoints, so the neighbour maps are symmetric with equal costs.

The planner's loop keeps the following:

- the tree only grows, and every node it adds outside the goal step lies outside every obstacle;
- it stops at `max_size` nodes, or one more when the goal node is added;
- on success, the newest node sits at the goal, its parent lies within `goal_tol`, and `path` is the root-to-goal chain of parent links.

## Where the model departs from the source

Randomness is an input:

- `biases[i]` is the outcome of `random.randint(0, 10) == 0` in iteration `i`.
- `draws` is the sequence of uniform points `_sample` would draw.
- When either runs out, the run ends with `DrawsExhausted`.

Square roots:

- A comparison of a distance with a bound (`sqrt(s) < r`) is decided exactly on squares (`Geometry.Closer`).
- A distance kept as a value (`h`, edge costs, the divisor of `_motion`) uses a square-root function `sqrt` that the caller supplies.
- The lemmas that need the true root assume `Geometry.ExactSqrt(sqrt)`.

Two behaviours of the code are worth stating plainly, and the model has them:

- `_motion` always moves exactly `step` towards the sample, even when the sample is closer (`Rrt.MotionStep`). It never stops at the sample.
- When the node budget runs out, `path` keeps the value the constructor gave it, the empty list. It is not `[start]`.

## Model

| member | source | states |
|---|---|---|
| Nodes.Node.constructor | Modern_Robotics_Robot_Motion_Planning_and_Control/Sampling-Based_Planning_Assignment/code/node.py:42-65 | A node stores id, x, y and `pos == (x, y)`. `h` is the distance to the goal and `parent` is the one passed (default `None`). Neighbours are empty and both scores are infinite. |
| Nodes.Node.SetNeighbor | Modern_Robotics_Robot_Motion_Planning_and_Control/Sampling-Based_Planning_Assignment/code/node.py:79-90 | Afterwards the map has `cost` at `id_`, and every other entry is as before. |
| Nodes.SetNeighborTwice | Modern_Robotics_Robot_Motion_Planning_and_Control/Sampling-Based_Planning_Assignment/code/node.py:90 | Setting the same neighbour twice keeps the last cost. Setting it again with the same cost changes nothing. |
| Nodes.Node.DistToPointZero | Modern_Robotics_Robot_Motion_Planning_and_Control/Sampling-Based_Planning_Assignment/code/node.py:92-94 | The distance from a node to a point is non-negative, and zero exactly when the point is the node's position. |
| Geometry.Dist | Modern_Robotics_Robot_Motion_Planning_and_Control/Sampling-Based_Planning_Assignment/code/sampling_planners.py:171-186 | `_dist`: the caller's square root of the squared distance. Its properties are the rows `DistSymmetric` and `DistZero`. |
| Nodes.Node.DistToPoint | Modern_Robotics_Robot_Motion_Planning_and_Control/Sampling-Based_Planning_Assignment/code/node.py:92-94 | `_dist_to_point`: the distance from the node's position to a point. Its property is the row `DistToPointZero`. |
| Geometry.DistSymmetric | Modern_Robotics_Robot_Motion_Planning_and_Control/Sampling-Based_Planning_Assignment/code/sampling_planners.py:186 | `_dist(p, q) == _dist(q, p)`. |
| Geometry.DistZero | Modern_Robotics_Robot_Motion_Planning_and_Control/Sampling-Based_Planning_Assignment/code/sampling_planners.py:186 | `_dist` is non-negative, zero for equal points and positive otherwise. |
| Geometry.CloserIff | Modern_Robotics_Robot_Motion_Planning_and_Control/Sampling-Based_Planning_Assignment/code/rrt.py:54 | The squared-distance comparison holds exactly when the true distance is below the bound. This is the goal check `_dist(...) < goal_tol`. |
| Obstacles.Obstacle.InCollisionPoint | Modern_Robotics_Robot_Motion_Planning_and_Control/Sampling-Based_Planning_Assignment/code/obstacle.py:28 | A point collision implies `r > 0`, so an obstacle with `r <= 0` blocks no point. |
| Obstacles.PointCollisionIff | Modern_Robotics_Robot_Motion_Planning_and_Control/Sampling-Based_Planning_Assignment/code/obstacle.py:28 | Point collision is exactly `distance < r`: the strict comparison of the true distance to the centre. |
| Obstacles.BoundaryAndCentre | Modern_Robotics_Robot_Motion_Planning_and_Control/Sampling-Based_Planning_Assignment/code/obstacle.py:28 | A point exactly on the circle is free. The centre is in collision when `r > 0`. |
| Obstacles.Obstacle.InCollisionLine | Modern_Robotics_Robot_Motion_Planning_and_Control/Sampling-Based_Planning_Assignment/code/obstacle.py:30-45 | The written line test, decided on squares: `num² < r² · den` with `r > 0`. The row `LineCollisionIff` proves it equal to `abs(num) / sqrt(den) < r`. |
| Obstacles.Obstacle.LineDenominator | Modern_Robotics_Robot_Motion_Planning_and_Control/Sampling-Based_Planning_Assignment/code/obstacle.py:45 | The radicand `(b.x-b.y)² + (a.y-b.y)² + 0.0000001` is strictly positive for all `a`, `b`, including `a == b`. |
| Obstacles.LineCollisionIff | Modern_Robotics_Robot_Motion_Planning_and_Control/Sampling-Based_Planning_Assignment/code/obstacle.py:44-45 | The square root of the denominator is positive, so the division is always defined. The line test is exactly `abs(num) / sqrt(den) < r`. |
| SamplingPlanners.IsInCollisionPoint | Modern_Robotics_Robot_Motion_Planning_and_Control/Sampling-Based_Planning_Assignment/code/sampling_planners.py:113-122 | The early-return scan answers true exactly when some obstacle reports a point collision. It answers false for no obstacles. |
| SamplingPlanners.IsInCollisionLine | Modern_Robotics_Robot_Motion_Planning_and_Control/Sampling-Based_Planning_Assignment/code/sampling_planners.py:140-149 | The early-return scan answers true exactly when some obstacle reports a line collision. It answers false for no obstacles. |
| SamplingPlanners.BlockedPermutation | Modern_Robotics_Robot_Motion_Planning_and_Control/Sampling-Based_Planning_Assignment/code/sampling_planners.py:113-119 | Reordering the obstacle list changes neither collision answer. |
| SamplingPlanners.Sample | Modern_Robotics_Robot_Motion_Planning_and_Control/Sampling-Based_Planning_Assignment/code/sampling_planners.py:160-169 | The result is the first draw not in collision: it lies in C and is free, and every draw before it was blocked. With no free draw, all remaining draws were blocked. |
| SamplingPlanners.SortSpec | Modern_Robotics_Robot_Motion_Planning_and_Control/Sampling-Based_Planning_Assignment/code/sampling_planners.py:212 | `sorted` returns a permutation of its input, in non-decreasing key order, with no duplicates when the input has none. |
| SamplingPlanners.SortHead | Modern_Robotics_Robot_Motion_Planning_and_Control/Sampling-Based_Planning_Assignment/code/sampling_planners.py:212 | The stable sort puts first the earliest element of least key. |
| SamplingPlanners.SortSameOrder | Modern_Robotics_Robot_Motion_Planning_and_Control/Sampling-Based_Planning_Assignment/code/sampling_planners.py:212 | Two keys that order every pair alike sort any list the same way. |
| SamplingPlanners.SortStable | Modern_Robotics_Robot_Motion_Planning_and_Control/Sampling-Based_Planning_Assignment/code/sampling_planners.py:212 | The sort is stable. For every key value, the elements with that key come out in their input order. |
| SamplingPlanners.SortByDistance | Modern_Robotics_Robot_Motion_Planning_and_Control/Sampling-Based_Planning_Assignment/code/sampling_planners.py:212 | With an exact square root, sorting ids by the distance of their positions to a point gives the same list as sorting by squared distance. |
| SamplingPlanners.Sort | Modern_Robotics_Robot_Motion_Planning_and_Control/Sampling-Based_Planning_Assignment/code/sampling_planners.py:212 | `sorted(ids, key)`: insertion of each element after every element whose key is not greater. The length is kept, and the properties are the rows `SortSpec`, `SortStable` and `SortHead`. |
| SamplingPlanners.Knn | Modern_Robotics_Robot_Motion_Planning_and_Control/Sampling-Based_Planning_Assignment/code/sampling_planners.py:210-212 | `_knn(k, pos)`: the first `min(k, n)` ids of the sorted list. Its properties are the row `KnnSpec`. |
| SamplingPlanners.KnnSpec | Modern_Robotics_Robot_Motion_Planning_and_Control/Sampling-Based_Planning_Assignment/code/sampling_planners.py:210-212 | `_knn(k)` returns `min(k, n)` ids, all from the dictionary, distinct and in non-decreasing distance. No omitted id is closer than a returned one. |
| SamplingPlanners.NearestInIdOrder | Modern_Robotics_Robot_Motion_Planning_and_Control/Sampling-Based_Planning_Assignment/code/sampling_planners.py:210-212 | `_knn(1, pos)[0]` over the dictionary is a node at least distance. Every node with a smaller id is strictly farther. |
| SamplingPlanners.VisitNeighbor | Modern_Robotics_Robot_Motion_Planning_and_Control/Sampling-Based_Planning_Assignment/code/sampling_planners.py:84-91 | Writing `(u, nb)` unless `(nb, u)` is already saved keeps the log invariant. The log invariant: the rows are exactly the due directions visited so far, each once, with the cost at the first endpoint. |
| SamplingPlanners.VisitNode | Modern_Robotics_Robot_Motion_Planning_and_Control/Sampling-Based_Planning_Assignment/code/sampling_planners.py:83-91 | The inner loop over all neighbours of node `u`, in any order, carries the log from node `u` to node `u + 1`. |
| SamplingPlanners.SaveEdges | Modern_Robotics_Robot_Motion_Planning_and_Control/Sampling-Based_Planning_Assignment/code/sampling_planners.py:81-91 | Every written row is a due direction with the cost stored at its first endpoint. Every due direction is written, and no pair is written twice. |
| SamplingPlanners.EmittedOnce | Modern_Robotics_Robot_Motion_Planning_and_Control/Sampling-Based_Planning_Assignment/code/sampling_planners.py:86-90 | No pair is written in both directions. With mirrored neighbour maps, the written direction of an edge is the one with the smaller id first, so each undirected edge appears once. |
| Ids.StringToNatOfNatToString | Modern_Robotics_Robot_Motion_Planning_and_Control/Sampling-Based_Planning_Assignment/code/sampling_planners.py:84-85 | `int(str(n)) == n` for every natural `n`. |
| Ids.NatToStringInjective | Modern_Robotics_Robot_Motion_Planning_and_Control/Sampling-Based_Planning_Assignment/code/rrt.py:38 | Distinct counts give distinct ids. |
| Tree.KeysAdd | Modern_Robotics_Robot_Motion_Planning_and_Control/Sampling-Based_Planning_Assignment/code/rrt.py:38 | The next id `str(len(nodes) + 1)` is not yet a key, so no node is overwritten. Adding it gives the ids `"1"` .. `str(n + 1)`. |
| Tree.KeysAddNode | Modern_Robotics_Robot_Motion_Planning_and_Control/Sampling-Based_Planning_Assignment/code/rrt.py:38-44 | Inserting the node under the next id keeps the keys exactly `"1"` .. `str(n + 1)`, each node under its own id, and grows the dictionary by one. |
| Tree.ParentsAdd | Modern_Robotics_Robot_Motion_Planning_and_Control/Sampling-Based_Planning_Assignment/code/rrt.py:39-44 | A new child of an existing node keeps every parent an existing node with a smaller id, and keeps the root parentless. |
| Tree.EdgesAreLinksAdd | Modern_Robotics_Robot_Motion_Planning_and_Control/Sampling-Based_Planning_Assignment/code/rrt.py:47-48 | After the two neighbour writes, every neighbour entry is still a parent link. |
| Tree.LinksAreEdgesAdd | Modern_Robotics_Robot_Motion_Planning_and_Control/Sampling-Based_Planning_Assignment/code/rrt.py:47-48 | After the two neighbour writes, every parent link, the new one included, is recorded at both ends. |
| Tree.CostsAdd | Modern_Robotics_Robot_Motion_Planning_and_Control/Sampling-Based_Planning_Assignment/code/rrt.py:47-48 | Both new entries carry the distance between the endpoints, so every edge cost is still a distance. |
| Tree.EdgesAdd | Modern_Robotics_Robot_Motion_Planning_and_Control/Sampling-Based_Planning_Assignment/code/rrt.py:38-48 | Inserting a child and linking it to its parent keeps the whole tree shape: keys, parents, heuristic, links and costs. |
| Tree.EdgesSymmetric | Modern_Robotics_Robot_Motion_Planning_and_Control/Sampling-Based_Planning_Assignment/code/rrt.py:47-48 | In a well-formed tree, if `k` lists `m` then `m` lists `k`, with the same cost. |
| Tree.InsertedKeepsPlanner | Modern_Robotics_Robot_Motion_Planning_and_Control/Sampling-Based_Planning_Assignment/code/rrt.py:38-48 | The state after one insertion is again a well-formed tree over the nodes' own neighbour maps. It is the old dictionary with the new node added. |
| Tree.Chain | Modern_Robotics_Robot_Motion_Planning_and_Control/Sampling-Based_Planning_Assignment/code/rrt.py:105-114 | The chain of parent links to `k` starts at the root `"1"` and ends at `k`. |
| Tree.ChainLinks | Modern_Robotics_Robot_Motion_Planning_and_Control/Sampling-Based_Planning_Assignment/code/rrt.py:105-114 | Along the chain every id is a node and the parent of the next one. Ids strictly increase, so no id repeats. |
| Tree.GrownToGoalFacts | Modern_Robotics_Robot_Motion_Planning_and_Control/Sampling-Based_Planning_Assignment/code/rrt.py:38-67 | A goal step adds exactly two nodes: the new node and, under it, the goal node at `goal_pos`, which has the newest id. The new node is clear when its position is. |
| Rrt.Motion | Modern_Robotics_Robot_Motion_Planning_and_Control/Sampling-Based_Planning_Assignment/code/rrt.py:91-93 | `_motion`: `nearest + step * (sample - nearest) / d`. It is defined for `d != 0`, and the rows `MotionStep` and `MotionDist` state where it lands. |
| Rrt.MotionStep | Modern_Robotics_Robot_Motion_Planning_and_Control/Sampling-Based_Planning_Assignment/code/rrt.py:91-93 | For `d > 0` equal to the distance to the sample, the new point is exactly `step` from `nearest`, on the ray towards the sample. This holds even when the sample is closer than `step`. |
| Rrt.MotionDist | Modern_Robotics_Robot_Motion_Planning_and_Control/Sampling-Based_Planning_Assignment/code/rrt.py:91-93 | With an exact square root and a sample distinct from `nearest`, `d > 0` and the new node lies at distance `step`. |
| Rrt.PickSample | Modern_Robotics_Robot_Motion_Planning_and_Control/Sampling-Based_Planning_Assignment/code/rrt.py:23-27 | In the goal branch the sample is the goal if it is free, and otherwise the previous sample, possibly unbound. In the other branch it is the next free uniform draw. |
| Rrt.RRT.constructor | Modern_Robotics_Robot_Motion_Planning_and_Control/Sampling-Based_Planning_Assignment/code/sampling_planners.py:13-39 | The tree holds exactly the root `"1"` at the start, with no parent and no neighbours. The path is empty, the parameters are stored and the invariant holds. |
| Rrt.RRT.InsertNode | Modern_Robotics_Robot_Motion_Planning_and_Control/Sampling-Based_Planning_Assignment/code/rrt.py:38-48 | Adds a fresh node under id `str(len + 1)`, with the given position, parent and heuristic. The edge cost is recorded at both ends, and every other node's neighbours are unchanged. |
| Rrt.RRT.AddNode | Modern_Robotics_Robot_Motion_Planning_and_Control/Sampling-Based_Planning_Assignment/code/rrt.py:38-48 | The tree grows by exactly that node, the path is untouched and the invariant is kept. |
| Rrt.RRT.NearestNode | Modern_Robotics_Robot_Motion_Planning_and_Control/Sampling-Based_Planning_Assignment/code/rrt.py:86-89 | Returns a tree node of least distance to the sample, with that distance. Among equally near nodes it is the first in id order. |
| Rrt.RRT.Extend | Modern_Robotics_Robot_Motion_Planning_and_Control/Sampling-Based_Planning_Assignment/code/rrt.py:30-67 | A colliding candidate or `d == 0` leaves the tree unchanged. Otherwise the tree grows at the stepped point under the nearest node: by one node, or by two when the point is within `goal_tol`, with the path set. |
| Rrt.RRT.Grow | Modern_Robotics_Robot_Motion_Planning_and_Control/Sampling-Based_Planning_Assignment/code/rrt.py:38-81 | Exactly one node is added iff the point is not within `goal_tol`. Otherwise the goal node is added too, and `path` is the root-to-goal chain. |
| Rrt.RRT.GrowToGoal | Modern_Robotics_Robot_Motion_Planning_and_Control/Sampling-Based_Planning_Assignment/code/rrt.py:54-75 | After the goal step, the newest node is at the goal, its parent is within tolerance, and `path` is its chain. |
| Rrt.RRT.ReachGoal | Modern_Robotics_Robot_Motion_Planning_and_Control/Sampling-Based_Planning_Assignment/code/rrt.py:57-75 | The goal node is added at `goal_pos` without a collision check, under the new node, and `path` is the chain to it. |
| Rrt.RRT.ReconstructPath | Modern_Robotics_Robot_Motion_Planning_and_Control/Sampling-Based_Planning_Assignment/code/rrt.py:95-116 | `path` becomes the chain of parent links from the root to `current`. Nothing else changes. |
| Rrt.RRT.WalkToRoot | Modern_Robotics_Robot_Motion_Planning_and_Control/Sampling-Based_Planning_Assignment/code/rrt.py:105-114 | The loop that prepends each parent id ends with exactly the root-to-`current` chain. |
| Rrt.RRT.Iteration | Modern_Robotics_Robot_Motion_Planning_and_Control/Sampling-Based_Planning_Assignment/code/rrt.py:21-67 | One loop iteration keeps the invariant and every existing node. It adds at most one clear node, or reaches the goal with two. It never reports the node budget. |
| Rrt.RRT.PlanRrt | Modern_Robotics_Robot_Motion_Planning_and_Control/Sampling-Based_Planning_Assignment/code/rrt.py:16-84 | The tree only grows, up to `max_size + 1` nodes. Every added non-goal node is collision-free. A run that exhausts the budget has at least `max_size` nodes and an unchanged path. A run starting at or above `max_size` reports failure and leaves the tree as it was. On success the path runs from the root to the goal node. |

## Left out

- `main.py` (argument parsing, timing, `input()`) is not part of this model, and neither is the A* planner: `planner.py` and its `node.py` are not part of this model.
- Visualisation (`_init_viz`, `_viz_path`, `_viz_update` and every `if self.viz` branch) has no effect on planning and is left out.
- File I/O is left out:
  - `_load_data`: the obstacle list is a constructor parameter;
  - `_save_path` and `_save_nodes`;
  - the `csv.writer` calls of `_save_edges`: `SaveEdges` returns the rows instead of writing them.
- The `[[]]` that `_save_edges` starts `saved_edges` with is not modelled. It never equals a pair, so the model starts from the empty list.
- Randomness is not modelled. The draws of `random.randint` and `np.random.uniform` are inputs, not distributions.
  - The unbounded `while True` of `_sample` becomes a scan of a finite draw sequence.
  - Running out of draws is the outcome `DrawsExhausted`, which the source does not have.
- Floating point is left out: coordinates are `real`, and `sqrt` is a caller-supplied function.
- At `d == 0` the source's division in `_motion` yields NaN. A NaN point passes the collision test and would be inserted. The model ends the run with `ZeroDistance` instead.
- The source raises `NameError` when the goal branch fires on the first iteration with the goal in collision, because `sample_pos` is unbound. The model ends the run with `SampleUnbound`.
- `is_in_collision_line` is modelled as its literal formula only. It is not a correct point-to-line distance (`b[0]-b[1]` in the denominator), and the RRT never calls it. Its correctness is not claimed.
- `print` calls and the `__repr__` methods of `Node` and `Obstacle` are left out.
- `RRT.__init__` also runs `plan_rrt` and `_save_data`. In the model these are separate calls (`PlanRrt`, `SaveEdges`) made after the constructor.
- Dictionary iteration order is modelled as id order (`IdSeq`). Under the key invariant, insertion order and id order coincide.
- Python's `sorted` is modelled by an insertion sort. It is proved to return an ordered permutation (`SortSpec`) and to be stable (`SortStable`): elements with equal keys keep their input order. Python documents both of these for its built-in sort. No lemma proves that only one list has both properties.
- `gScore` and `fScore` are only initialised, because the RRT never reads or writes them.
- The planner writes the neighbour dictionaries directly (rrt.py lines 47-48 and 66-67), as the model does, not through `set_neighbor`.
- `InsertNode` writes the parent's neighbour entry before the new node's. The two writes touch different objects, so the final state is the one the source reaches.
- `Node.owner` is a ghost field. It only lets the planner's loop name the nodes of its own tree in its `modifies` clause.
- `Iteration`, `PickSample`, `Extend`, `Grow`, `GrowToGoal`, `ReachGoal`, `AddNode`, `InsertNode` and `WalkToRoot` are pieces of `plan_rrt` and `_reconstruct_path`, not functions of the source.
- Rrt.RRT.PlanRrt: may change the neighbour maps of any node of its own tree, and does not state that the nodes it adds are fresh objects. `Extend`, `Grow` and `AddNode` do state it.
- Rrt.RRT.Iteration: has the same frame as `PlanRrt`, and likewise does not state that the nodes it adds are fresh objects.
- Obstacles.PointCollisionIff: relates the test to a distance `d` given with `d ≥ 0` and `d² == (x-px)² + (y-py)²`, rather than to a square-root function.
