/**
  The shape of the planner's tree: parent links, neighbour maps and costs.
*/
module Tree {
  import opened Wrappers
  import opened Geometry
  import opened Ids
  import opened Nodes
  import opened Obstacles
  import opened SamplingPlanners

  /**
    The root `"1"` has no parent; every other node has a parent that is a
    node with a smaller id.
  */
  ghost predicate ParentsOk(nodes: map<string, Node>) {
    && Root in nodes && nodes[Root].parent == None
    && forall k :: k in nodes && k != Root ==>
      nodes[k].parent.Some? && nodes[k].parent.value in nodes
      && IdNum(nodes[k].parent.value) < IdNum(k)
  }

  /** Every neighbour entry is a parent link, in one direction or the other. */
  ghost predicate EdgesAreLinks(nodes: map<string, Node>, nbrs: map<string, map<string, real>>) {
    forall k, m {:trigger m in nbrs[k]} :: k in nbrs && m in nbrs[k] ==>
      k in nodes && (nodes[k].parent == Some(m) || (m in nodes && nodes[m].parent == Some(k)))
  }

  /** Every parent link is recorded at both ends. */
  ghost predicate LinksAreEdges(nodes: map<string, Node>, nbrs: map<string, map<string, real>>) {
    forall k :: k in nodes && nodes[k].parent.Some? ==>
      && k in nbrs && nodes[k].parent.value in nbrs[k]
      && nodes[k].parent.value in nbrs && k in nbrs[nodes[k].parent.value]
  }

  /** Every edge cost is the distance between its endpoints. */
  ghost predicate CostsAreDistances(nodes: map<string, Node>, nbrs: map<string, map<string, real>>, sqrt: real -> real) {
    forall k, m {:trigger nbrs[k][m]} :: k in nbrs && m in nbrs[k] && k in nodes && m in nodes ==>
      nbrs[k][m] == Dist(nodes[k].pos, nodes[m].pos, sqrt)
  }

  /** The shape of the planner's tree, over the nodes and a snapshot of their neighbour maps. */
  ghost predicate TreeOk(nodes: map<string, Node>, nbrs: map<string, map<string, real>>,
                         startPos: Point, goalPos: Point, sqrt: real -> real) {
    && KeysOk(nodes) && ParentsOk(nodes)
    && nodes[Root].pos == startPos
    && (forall k :: k in nodes ==> nodes[k].h == Dist(nodes[k].pos, goalPos, sqrt))
    && NeighborsInTree(nodes, nbrs) && EdgesAreLinks(nodes, nbrs) && LinksAreEdges(nodes, nbrs)
    && CostsAreDistances(nodes, nbrs, sqrt)
  }

  /** Neighbour maps are symmetric, with the same cost at both ends. */
  lemma EdgesSymmetric(nodes: map<string, Node>, nbrs: map<string, map<string, real>>,
                       startPos: Point, goalPos: Point, sqrt: real -> real, k: string, m: string)
    requires TreeOk(nodes, nbrs, startPos, goalPos, sqrt)
    requires k in nbrs && m in nbrs[k]
    ensures m in nbrs && k in nbrs[m] && nbrs[m][k] == nbrs[k][m]
  {
    assert m in nodes;
    assert nodes[k].parent == Some(m) || nodes[m].parent == Some(k);
    assert k in nbrs[m];
    DistSymmetric(nodes[k].pos, nodes[m].pos, sqrt);
  }

  /** The neighbour maps once node `id` is linked to `parentId` with edge cost `cost` at both ends. */
  function Linked(nbrs: map<string, map<string, real>>, id: string, parentId: string, cost: real): (r: map<string, map<string, real>>)
    requires parentId in nbrs
    ensures r.Keys == nbrs.Keys + {id}
  {
    nbrs[id := map[parentId := cost]][parentId := nbrs[parentId][id := cost]]
  }

  /** The next id `str(n + 1)` is not yet a key, and adding it gives the ids `"1"` to `str(n + 1)`. */
  lemma KeysAdd(nodes: map<string, Node>, id: string)
    requires KeysOk(nodes) && id == NatToString(|nodes| + 1)
    ensures id !in nodes && IdSet(|nodes| + 1) == nodes.Keys + {id}
  {
    var n := |nodes|;
    IdUpTo(n + 1, n + 1);
    IdSetMembers(n, id);
  }

  /** Adding node `str(n + 1)` keeps the ids exactly `"1"` to `str(n + 1)`. */
  lemma KeysAddNode(nodes: map<string, Node>, node: Node)
    requires KeysOk(nodes) && node.id == NatToString(|nodes| + 1)
    ensures node.id !in nodes && |nodes[node.id := node]| == |nodes| + 1 && KeysOk(nodes[node.id := node])
  {
    KeysAdd(nodes, node.id);
  }

  /** Inserting a new node and linking it to its parent changes the neighbour maps by exactly that link. */
  lemma CoupledLinked(nodes0: map<string, Node>, nodes: map<string, Node>, edges0: map<string, map<string, real>>,
                      id: string, parentId: string, cost: real)
    requires edges0.Keys == nodes0.Keys
    requires parentId in nodes0 && id !in nodes0 && id in nodes && nodes == nodes0[id := nodes[id]]
    requires nodes[id].neighbors == map[parentId := cost]
    requires nodes[parentId].neighbors == edges0[parentId][id := cost]
    requires forall k :: k in nodes0 && k != parentId ==> nodes[k].neighbors == edges0[k]
    ensures Linked(edges0, id, parentId, cost).Keys == nodes.Keys
    ensures forall k :: k in nodes ==> nodes[k].neighbors == Linked(edges0, id, parentId, cost)[k]
  {
    var edges := Linked(edges0, id, parentId, cost);
    forall k | k in nodes
      ensures nodes[k].neighbors == edges[k]
    {
      if k != id && k != parentId {
        assert nodes[k] == nodes0[k];
      }
    }
  }

  /** Adding a child of an existing node keeps the parent links well-founded. */
  lemma ParentsAdd(nodes: map<string, Node>, node: Node, parentId: string)
    requires KeysOk(nodes) && ParentsOk(nodes) && parentId in nodes
    requires node.id == NatToString(|nodes| + 1) && node.parent == Some(parentId)
    ensures KeysOk(nodes[node.id := node]) && ParentsOk(nodes[node.id := node])
  {
    KeysAddNode(nodes, node);
    var n, nodes' := |nodes|, nodes[node.id := node];
    IdUpTo(n + 1, n + 1);
    IdSetMembers(n, parentId);
    assert IdNum(node.id) == n + 1 && IdNum(parentId) <= n;
    assert Root != node.id && nodes'[Root] == nodes[Root];
    forall k | k in nodes' && k != Root
      ensures nodes'[k].parent.Some? && nodes'[k].parent.value in nodes'
      ensures IdNum(nodes'[k].parent.value) < IdNum(k)
    {
      if k != node.id {
        assert nodes'[k] == nodes[k];
      }
    }
  }

  /** Linking a new child to its parent: every neighbour entry is still a parent link. */
  lemma EdgesAreLinksAdd(nodes: map<string, Node>, nbrs: map<string, map<string, real>>, node: Node, parentId: string, cost: real)
    requires parentId in nodes && parentId in nbrs && node.id !in nodes && node.parent == Some(parentId)
    requires EdgesAreLinks(nodes, nbrs)
    ensures EdgesAreLinks(nodes[node.id := node], Linked(nbrs, node.id, parentId, cost))
  {
    var id := node.id;
    var nodes', nbrs' := nodes[id := node], Linked(nbrs, id, parentId, cost);
    forall k, m | k in nbrs' && m in nbrs'[k]
      ensures k in nodes' && (nodes'[k].parent == Some(m) || (m in nodes' && nodes'[m].parent == Some(k)))
    {
      if k != id && !(k == parentId && m == id) {
        assert m in nbrs[k];
      }
    }
  }

  /** Linking a new child to its parent: every parent link, the new one included, is recorded at both ends. */
  lemma LinksAreEdgesAdd(nodes: map<string, Node>, nbrs: map<string, map<string, real>>, node: Node, parentId: string, cost: real)
    requires parentId in nodes && parentId in nbrs && node.id !in nodes && node.parent == Some(parentId)
    requires forall k :: k in nodes && nodes[k].parent.Some? ==> nodes[k].parent.value in nodes
    requires LinksAreEdges(nodes, nbrs)
    ensures LinksAreEdges(nodes[node.id := node], Linked(nbrs, node.id, parentId, cost))
  {
    var id := node.id;
    var nodes', nbrs' := nodes[id := node], Linked(nbrs, id, parentId, cost);
    forall k | k in nodes' && nodes'[k].parent.Some? && k != id
      ensures k in nbrs' && nodes'[k].parent.value in nbrs'[k]
      ensures nodes'[k].parent.value in nbrs' && k in nbrs'[nodes'[k].parent.value]
    {
      assert nodes'[k] == nodes[k];
      assert nodes[k].parent.value != id;
    }
  }

  /** Linking a new child to its parent keeps every neighbour a node. */
  lemma NeighborsAdd(nodes: map<string, Node>, nbrs: map<string, map<string, real>>, node: Node, parentId: string, cost: real)
    requires parentId in nodes && node.id !in nodes
    requires NeighborsInTree(nodes, nbrs)
    ensures NeighborsInTree(nodes[node.id := node], Linked(nbrs, node.id, parentId, cost))
  {
    var id := node.id;
    var nodes', nbrs' := nodes[id := node], Linked(nbrs, id, parentId, cost);
    forall k, m | k in nbrs' && m in nbrs'[k]
      ensures m in nodes'
    {
      if k != id && !(k == parentId && m == id) {
        assert m in nbrs[k];
      }
    }
  }

  /** Linking a new child to its parent with their distance keeps every cost a distance. */
  lemma CostsAdd(nodes: map<string, Node>, nbrs: map<string, map<string, real>>, sqrt: real -> real,
                 node: Node, parentId: string, cost: real)
    requires parentId in nodes && parentId in nbrs && node.id !in nodes && CostsAreDistances(nodes, nbrs, sqrt)
    requires cost == Dist(node.pos, nodes[parentId].pos, sqrt)
    requires forall k, m :: k in nbrs && m in nbrs[k] ==> m in nodes
    ensures CostsAreDistances(nodes[node.id := node], Linked(nbrs, node.id, parentId, cost), sqrt)
  {
    var id := node.id;
    var nodes', nbrs' := nodes[id := node], Linked(nbrs, id, parentId, cost);
    DistSymmetric(node.pos, nodes[parentId].pos, sqrt);
    forall k, m | k in nbrs' && m in nbrs'[k] && k in nodes' && m in nodes'
      ensures nbrs'[k][m] == Dist(nodes'[k].pos, nodes'[m].pos, sqrt)
    {
      if k != id && !(k == parentId && m == id) {
        assert m in nbrs[k] && m != id;
      }
    }
  }

  /** Linking a new child to its parent keeps the shape of the tree. */
  lemma EdgesAdd(nodes: map<string, Node>, nbrs: map<string, map<string, real>>, startPos: Point, goalPos: Point,
                 sqrt: real -> real, node: Node, parentId: string, cost: real)
    requires TreeOk(nodes, nbrs, startPos, goalPos, sqrt) && parentId in nodes
    requires node.id == NatToString(|nodes| + 1) && node.parent == Some(parentId)
    requires node.h == Dist(node.pos, goalPos, sqrt) && cost == Dist(node.pos, nodes[parentId].pos, sqrt)
    ensures TreeOk(nodes[node.id := node], Linked(nbrs, node.id, parentId, cost), startPos, goalPos, sqrt)
  {
    KeysAddNode(nodes, node);
    ParentsAdd(nodes, node, parentId);
    NeighborsAdd(nodes, nbrs, node, parentId, cost);
    EdgesAreLinksAdd(nodes, nbrs, node, parentId, cost);
    LinksAreEdgesAdd(nodes, nbrs, node, parentId, cost);
    CostsAdd(nodes, nbrs, sqrt, node, parentId, cost);
    assert nodes[node.id := node][Root] == nodes[Root];
  }

  /** The root-to-`k` chain of parent links: it starts at the root and ends at `k`. */
  function Chain(nodes: map<string, Node>, k: string): (path: seq<string>)
    requires ParentsOk(nodes) && k in nodes
    ensures |path| >= 1 && path[0] == Root && path[|path| - 1] == k
    decreases IdNum(k)
  {
    match nodes[k].parent
    case None => [k]
    case Some(p) => Chain(nodes, p) + [k]
  }

  /**
    Along a chain every entry is a node and the parent of the next, and ids
    strictly increase, so no id repeats: parent links are acyclic.
  */
  lemma {:induction false} ChainLinks(nodes: map<string, Node>, k: string)
    requires ParentsOk(nodes) && k in nodes
    ensures var path := Chain(nodes, k);
      && (forall i :: 0 <= i < |path| ==> path[i] in nodes)
      && (forall i :: 0 < i < |path| ==> nodes[path[i]].parent == Some(path[i - 1]))
      && (forall i, j :: 0 <= i < j < |path| ==> IdNum(path[i]) < IdNum(path[j]))
      && NoDup(path)
    decreases IdNum(k)
  {
    match nodes[k].parent
    case None =>
    case Some(p) =>
      ChainLinks(nodes, p);
      var path, init := Chain(nodes, k), Chain(nodes, p);
      assert path == init + [k];
      assert forall i :: 0 <= i < |init| ==> path[i] == init[i];
      assert forall i :: 0 <= i < |init| ==> IdNum(init[i]) <= IdNum(p);
  }

  /** One parent step of the walk: the chain to `k` is the chain to its parent, then `k`. */
  lemma ChainPrepend(nodes: map<string, Node>, k: string, tail: seq<string>)
    requires ParentsOk(nodes) && k in nodes && nodes[k].parent.Some?
    ensures nodes[k].parent.value in nodes
    ensures Chain(nodes, nodes[k].parent.value) + ([k] + tail) == Chain(nodes, k) + tail
  {
    assert Chain(nodes, k) == Chain(nodes, nodes[k].parent.value) + [k];
  }


  /** The snapshot `nbrs` holds every node's neighbour map. */
  ghost predicate Coupled(nodes: map<string, Node>, nbrs: map<string, map<string, real>>)
    reads nodes.Values
  {
    nbrs.Keys == nodes.Keys && forall k :: k in nodes ==> nodes[k].neighbors == nbrs[k]
  }

  /** The planner's invariant: the tree shape over the neighbour maps the nodes hold. */
  ghost predicate PlannerOk(nodes: map<string, Node>, nbrs: map<string, map<string, real>>,
                            startPos: Point, goalPos: Point, sqrt: real -> real)
    reads nodes.Values
  {
    Coupled(nodes, nbrs) && TreeOk(nodes, nbrs, startPos, goalPos, sqrt)
  }

  /**
    The state after node `id` was inserted at `p` under `parentId`, given the
    node map `nodes0` and the snapshot `edges0` of the neighbour maps before:
    the new node carries its id, position, parent and the distance to the
    goal, the edge is recorded at both ends with the distance as cost, every
    other node still has its neighbours of `edges0`, and the snapshot `edges`
    is `edges0` linked the same way.
  */
  ghost predicate Inserted(nodes0: map<string, Node>, nodes: map<string, Node>,
                           edges0: map<string, map<string, real>>, edges: map<string, map<string, real>>,
                           id: string, p: Point, parentId: string, goalPos: Point, sqrt: real -> real)
    reads nodes.Values
  {
    && edges0.Keys == nodes0.Keys && id in nodes && parentId in nodes0 && nodes == nodes0[id := nodes[id]]
    && nodes[id].id == id && nodes[id].pos == p && nodes[id].parent == Some(parentId)
    && nodes[id].h == Dist(p, goalPos, sqrt)
    && nodes[id].neighbors == map[parentId := Dist(p, nodes[parentId].pos, sqrt)]
    && nodes[parentId].neighbors == edges0[parentId][id := Dist(p, nodes[parentId].pos, sqrt)]
    && (forall k :: k in nodes0 && k != parentId ==> nodes[k].neighbors == edges0[k])
    && edges == Linked(edges0, id, parentId, Dist(p, nodes[parentId].pos, sqrt))
  }

  /** Inserting the next node under an existing one keeps the planner's invariant. */
  lemma InsertedKeepsPlanner(nodes0: map<string, Node>, nodes: map<string, Node>,
                             edges0: map<string, map<string, real>>, edges: map<string, map<string, real>>,
                             id: string, p: Point, parentId: string, startPos: Point, goalPos: Point,
                             sqrt: real -> real)
    requires TreeOk(nodes0, edges0, startPos, goalPos, sqrt)
    requires id == NatToString(|nodes0| + 1)
    requires Inserted(nodes0, nodes, edges0, edges, id, p, parentId, goalPos, sqrt)
    ensures PlannerOk(nodes, edges, startPos, goalPos, sqrt) && Grown(nodes0, nodes, id, p, parentId)
  {
    var cost := Dist(p, nodes[parentId].pos, sqrt);
    KeysAddNode(nodes0, nodes[id]);
    CoupledLinked(nodes0, nodes, edges0, id, parentId, cost);
    EdgesAdd(nodes0, edges0, startPos, goalPos, sqrt, nodes[id], parentId, cost);
  }

  // ------------------------------------------------------------ growth of the tree

  /**
    `after` is `before` with one node more: `id`, the next id `str(len(before) + 1)`,
    at `p` and a child of `parentId`.
  */
  ghost predicate Grown(before: map<string, Node>, after: map<string, Node>, id: string, p: Point, parentId: string) {
    && id == NatToString(|before| + 1) && id !in before && id in after
    && after == before[id := after[id]]
    && after[id].pos == p && after[id].parent == Some(parentId)
  }

  /**
    `after` is `before` grown by a node `id` at `p` under `parentId`, and then
    by the goal node `goalId` at `goalPos` under `id`.
  */
  ghost predicate GrownToGoal(before: map<string, Node>, after: map<string, Node>, id: string, p: Point, parentId: string,
                              goalId: string, goalPos: Point) {
    && id in after
    && Grown(before, before[id := after[id]], id, p, parentId)
    && Grown(before[id := after[id]], after, goalId, goalPos, id)
  }

  /** Every node of `before` is still in `after`, and is the same node. */
  ghost predicate Kept(before: map<string, Node>, after: map<string, Node>) {
    forall k :: k in before ==> k in after && after[k] == before[k]
  }

  /** Every node of `after` that is neither in `before` nor in `except` lies outside every obstacle. */
  ghost predicate NewClear(before: map<string, Node>, after: map<string, Node>, obs: seq<Obstacle>, except: set<string>) {
    forall k :: k in after && k !in before && k !in except ==> !PointBlocked(obs, after[k].pos)
  }

  /**
    The planner's success: the newest node `str(len(nodes))` sits at the goal,
    its parent lies within `goalTol` of the goal, and `path` is the chain of
    parent links from the root to it.
  */
  ghost predicate AtGoal(nodes: map<string, Node>, path: seq<string>, goalPos: Point, goalTol: real) {
    var g := NatToString(|nodes|);
    && ParentsOk(nodes) && g in nodes && nodes[g].pos == goalPos
    && nodes[g].parent.Some? && nodes[g].parent.value in nodes
    && Closer(nodes[nodes[g].parent.value].pos, goalPos, goalTol)
    && path == Chain(nodes, g)
  }

  lemma KeptTrans(a: map<string, Node>, b: map<string, Node>, c: map<string, Node>)
    requires Kept(a, b) && Kept(b, c)
    ensures Kept(a, c)
  {
  }

  /** What growing by one node changes: one id more, which is the only new key. */
  lemma GrownFacts(before: map<string, Node>, after: map<string, Node>, id: string, p: Point, parentId: string,
                   obs: seq<Obstacle>)
    requires Grown(before, after, id, p, parentId)
    ensures Kept(before, after) && |after| == |before| + 1
    ensures forall k :: k in after && k !in before ==> k == id
    ensures !PointBlocked(obs, p) ==> NewClear(before, after, obs, {})
  {
  }

  /** Growing by a node and then by the goal node under it. */
  lemma GrownToGoalIntro(before: map<string, Node>, mid: map<string, Node>, after: map<string, Node>,
                         id: string, p: Point, parentId: string, goalId: string, goalPos: Point)
    requires Grown(before, mid, id, p, parentId) && Grown(mid, after, goalId, goalPos, id)
    ensures GrownToGoal(before, after, id, p, parentId, goalId, goalPos)
  {
    assert after[id] == mid[id];
  }

  /** What growing to the goal changes: two ids more, the second one the goal node. */
  lemma GrownToGoalFacts(before: map<string, Node>, after: map<string, Node>, id: string, p: Point, parentId: string,
                         goalId: string, goalPos: Point, obs: seq<Obstacle>)
    requires GrownToGoal(before, after, id, p, parentId, goalId, goalPos)
    ensures Kept(before, after) && |after| == |before| + 2 && goalId == NatToString(|after|)
    ensures id in after && after[id].pos == p && after[id].parent == Some(parentId)
    ensures goalId in after && goalId != id && after[goalId].pos == goalPos && after[goalId].parent == Some(id)
    ensures forall k :: k in after && k !in before ==> k == id || k == goalId
    ensures !PointBlocked(obs, p) ==> NewClear(before, after, obs, {goalId})
  {
    var mid := before[id := after[id]];
    GrownFacts(before, mid, id, p, parentId, obs);
    GrownFacts(mid, after, goalId, goalPos, id, obs);
  }

  /**
    Growing by a node within `goalTol` of the goal and then by the goal node
    under it, with the path as the chain to the goal node, is the planner's
    success.
  */
  lemma GrownToGoalReached(before: map<string, Node>, mid: map<string, Node>, after: map<string, Node>,
                           id: string, p: Point, parentId: string, goalId: string, goalPos: Point, goalTol: real,
                           path: seq<string>)
    requires Grown(before, mid, id, p, parentId) && Grown(mid, after, goalId, goalPos, id)
    requires Closer(p, goalPos, goalTol) && ParentsOk(after) && path == Chain(after, goalId)
    ensures GrownToGoal(before, after, id, p, parentId, goalId, goalPos) && AtGoal(after, path, goalPos, goalTol)
    ensures id in after && after[id] == mid[id]
    ensures forall k :: k in after && k !in before ==> k == id || k == goalId
  {
    GrownToGoalIntro(before, mid, after, id, p, parentId, goalId, goalPos);
  }

  /** Every node of the map belongs to `owner`. */
  ghost predicate Owned(nodes: map<string, Node>, owner: object) {
    forall k :: k in nodes ==> nodes[k].owner == owner
  }

  /** A node added to an owned map with the same owner keeps it owned. */
  lemma OwnedAdd(before: map<string, Node>, after: map<string, Node>, id: string, owner: object)
    requires Owned(before, owner) && id in after && after == before[id := after[id]] && after[id].owner == owner
    ensures Owned(after, owner)
  {
  }

  /** Clearance of new nodes carries over two growth steps. */
  lemma NewClearTrans(a: map<string, Node>, b: map<string, Node>, c: map<string, Node>, obs: seq<Obstacle>, except: set<string>)
    requires Kept(b, c) && NewClear(a, b, obs, {}) && NewClear(b, c, obs, except)
    ensures NewClear(a, c, obs, except)
  {
  }
}
