/**
  The helpers every sampling planner shares: collision checks over the
  obstacle list, rejection sampling in the configuration space, the
  k-nearest-neighbour query, and the shape of the node dictionary.
*/
module SamplingPlanners {
  import opened Wrappers
  import opened Geometry
  import opened Ids
  import opened Nodes
  import opened Obstacles

  /** Bounds of the configuration space C on both axes. */
  const CLow: real := -0.5
  const CHigh: real := 0.5

  predicate InCSpace(p: Point) {
    CLow <= p.x <= CHigh && CLow <= p.y <= CHigh
  }

  // ---------------------------------------------------------------- collisions

  /** Some obstacle of `obs` reports a point collision at `p`. */
  predicate PointBlocked(obs: seq<Obstacle>, p: Point) {
    exists i :: 0 <= i < |obs| && obs[i].InCollisionPoint(p)
  }

  /** Some obstacle of `obs` reports a line collision between `a` and `b`. */
  predicate LineBlocked(obs: seq<Obstacle>, a: Point, b: Point) {
    exists i :: 0 <= i < |obs| && obs[i].InCollisionLine(a, b)
  }

  /** Scans the obstacles in order and stops at the first collision. */
  method IsInCollisionPoint(obs: seq<Obstacle>, p: Point) returns (b: bool)
    ensures b <==> PointBlocked(obs, p)
    ensures obs == [] ==> !b
  {
    for i := 0 to |obs|
      invariant forall j :: 0 <= j < i ==> !obs[j].InCollisionPoint(p)
    {
      if obs[i].InCollisionPoint(p) {
        return true;
      }
    }
    return false;
  }

  /** Scans the obstacles in order and stops at the first line collision. */
  method IsInCollisionLine(obs: seq<Obstacle>, a: Point, b: Point) returns (c: bool)
    ensures c <==> LineBlocked(obs, a, b)
    ensures obs == [] ==> !c
  {
    for i := 0 to |obs|
      invariant forall j :: 0 <= j < i ==> !obs[j].InCollisionLine(a, b)
    {
      if obs[i].InCollisionLine(a, b) {
        return true;
      }
    }
    return false;
  }

  lemma BlockedSubset(obs: seq<Obstacle>, obs': seq<Obstacle>, p: Point, a: Point, b: Point)
    requires forall o :: o in obs ==> o in obs'
    ensures PointBlocked(obs, p) ==> PointBlocked(obs', p)
    ensures LineBlocked(obs, a, b) ==> LineBlocked(obs', a, b)
  {
    if PointBlocked(obs, p) {
      var i :| 0 <= i < |obs| && obs[i].InCollisionPoint(p);
      assert obs[i] in obs';
    }
    if LineBlocked(obs, a, b) {
      var i :| 0 <= i < |obs| && obs[i].InCollisionLine(a, b);
      assert obs[i] in obs';
    }
  }

  /** Reordering the obstacle list changes neither collision answer. */
  lemma BlockedPermutation(obs: seq<Obstacle>, obs': seq<Obstacle>, p: Point, a: Point, b: Point)
    requires multiset(obs) == multiset(obs')
    ensures PointBlocked(obs, p) <==> PointBlocked(obs', p)
    ensures LineBlocked(obs, a, b) <==> LineBlocked(obs', a, b)
  {
    assert forall o :: o in obs <==> o in multiset(obs);
    assert forall o :: o in obs' <==> o in multiset(obs');
    BlockedSubset(obs, obs', p, a, b);
    BlockedSubset(obs', obs, p, a, b);
  }

  // ---------------------------------------------------------------- sampling

  /**
    Rejection sampling: `draws` stands for the successive uniform points of C
    the random generator would return, consumed from index `start`. The
    result is the first free draw, together with the index after it; `None`
    when the draws run out before a free one appears.
  */
  method Sample(obs: seq<Obstacle>, draws: seq<Point>, start: nat) returns (p: Option<Point>, next: nat)
    requires start <= |draws|
    requires forall j :: start <= j < |draws| ==> InCSpace(draws[j])
    ensures start <= next <= |draws|
    ensures p.Some? ==> start < next && p.value == draws[next - 1]
    ensures p.Some? ==> InCSpace(p.value) && !PointBlocked(obs, p.value)
    ensures p.Some? ==> forall j :: start <= j < next - 1 ==> PointBlocked(obs, draws[j])
    ensures p.None? ==> next == |draws| && forall j :: start <= j < |draws| ==> PointBlocked(obs, draws[j])
  {
    next := start;
    while next < |draws|
      invariant start <= next <= |draws|
      invariant forall j :: start <= j < next ==> PointBlocked(obs, draws[j])
      decreases |draws| - next
    {
      var q := draws[next];
      next := next + 1;
      var blocked := IsInCollisionPoint(obs, q);
      if !blocked {
        return Some(q), next;
      }
    }
    return None, next;
  }

  // ---------------------------------------------------------------- k nearest

  /** Non-decreasing in `key`. */
  predicate SortedBy(s: seq<string>, key: string -> real) {
    forall i, j :: 0 <= i < j < |s| ==> key(s[i]) <= key(s[j])
  }

  predicate NoDup(s: seq<string>) {
    forall i, j :: 0 <= i < j < |s| ==> s[i] != s[j]
  }

  /** Places `x` after every element whose key is not greater than its own. */
  function Insert(x: string, s: seq<string>, key: string -> real): (r: seq<string>)
    ensures |r| == |s| + 1
    ensures r[0] == if s != [] && key(s[0]) <= key(x) then s[0] else x
  {
    if s == [] then [x]
    else if key(x) < key(s[0]) then [x] + s
    else [s[0]] + Insert(x, s[1..], key)
  }

  lemma {:induction false} InsertMultiset(x: string, s: seq<string>, key: string -> real)
    ensures multiset(Insert(x, s, key)) == multiset(s) + multiset{x}
    decreases |s|
  {
    if s == [] {
    } else if key(x) < key(s[0]) {
      assert Insert(x, s, key) == [x] + s;
    } else {
      var t := Insert(x, s[1..], key);
      InsertMultiset(x, s[1..], key);
      assert s == [s[0]] + s[1..];
      assert multiset(s) == multiset{s[0]} + multiset(s[1..]);
      assert Insert(x, s, key) == [s[0]] + t;
      assert multiset(Insert(x, s, key)) == multiset{s[0]} + multiset(t);
    }
  }

  /** Inserting adds exactly `x`: as a multiset, and so as a set of members. */
  lemma InsertElements(x: string, s: seq<string>, key: string -> real)
    ensures multiset(Insert(x, s, key)) == multiset(s) + multiset{x}
    ensures forall y :: y in Insert(x, s, key) <==> y == x || y in s
  {
    InsertMultiset(x, s, key);
    forall y
      ensures y in Insert(x, s, key) <==> y == x || y in s
    {
      assert y in Insert(x, s, key) <==> y in multiset(Insert(x, s, key));
      assert y in s <==> y in multiset(s);
    }
  }

  /** An element no greater than every element of a sorted sequence can go in front of it. */
  lemma ConsSorted(a: string, t: seq<string>, key: string -> real)
    requires SortedBy(t, key)
    requires forall i :: 0 <= i < |t| ==> key(a) <= key(t[i])
    ensures SortedBy([a] + t, key)
  {
    var r := [a] + t;
    forall i, j | 0 <= i < j < |r|
      ensures key(r[i]) <= key(r[j])
    {
      assert r[j] == t[j - 1];
      if i > 0 {
        assert r[i] == t[i - 1];
      }
    }
  }

  lemma {:induction false} InsertSorted(x: string, s: seq<string>, key: string -> real)
    requires SortedBy(s, key)
    ensures SortedBy(Insert(x, s, key), key)
    decreases |s|
  {
    if s == [] {
    } else if key(x) < key(s[0]) {
      ConsSorted(x, s, key);
    } else {
      var t := Insert(x, s[1..], key);
      InsertSorted(x, s[1..], key);
      InsertElements(x, s[1..], key);
      forall i | 0 <= i < |t|
        ensures key(s[0]) <= key(t[i])
      {
        assert t[i] in t;
        if t[i] != x {
          var j :| 0 <= j < |s[1..]| && s[1..][j] == t[i];
          assert s[j + 1] == t[i];
        }
      }
      ConsSorted(s[0], t, key);
    }
  }

  /** An element not in a sequence without duplicates can go in front of it. */
  lemma ConsNoDup(a: string, t: seq<string>)
    requires NoDup(t) && a !in t
    ensures NoDup([a] + t)
  {
    var r := [a] + t;
    forall i, j | 0 <= i < j < |r|
      ensures r[i] != r[j]
    {
      assert r[j] == t[j - 1];
      if i > 0 {
        assert r[i] == t[i - 1];
      }
    }
  }

  lemma {:induction false} InsertNoDup(x: string, s: seq<string>, key: string -> real)
    requires NoDup(s) && x !in s
    ensures NoDup(Insert(x, s, key))
    decreases |s|
  {
    if s == [] {
    } else if key(x) < key(s[0]) {
      ConsNoDup(x, s);
    } else {
      assert s == [s[0]] + s[1..];
      assert NoDup(s[1..]);
      InsertNoDup(x, s[1..], key);
      InsertElements(x, s[1..], key);
      ConsNoDup(s[0], Insert(x, s[1..], key));
    }
  }

  /** Python's `sorted`: a stable insertion sort of `s` by `key`. */
  function Sort(s: seq<string>, key: string -> real): (r: seq<string>)
    ensures |r| == |s|
  {
    if s == [] then []
    else Insert(s[|s| - 1], Sort(s[..|s| - 1], key), key)
  }

  /** The sort is a permutation of its input, ordered by key, and keeps distinct elements distinct. */
  lemma {:induction false} SortSpec(s: seq<string>, key: string -> real)
    ensures multiset(Sort(s, key)) == multiset(s)
    ensures forall y :: y in Sort(s, key) <==> y in s
    ensures SortedBy(Sort(s, key), key)
    ensures NoDup(s) ==> NoDup(Sort(s, key))
    decreases |s|
  {
    if s != [] {
      var init, x := s[..|s| - 1], s[|s| - 1];
      assert s == init + [x];
      SortSpec(init, key);
      InsertElements(x, Sort(init, key), key);
      InsertSorted(x, Sort(init, key), key);
      if NoDup(s) {
        assert NoDup(init);
        assert x !in init;
        InsertNoDup(x, Sort(init, key), key);
      }
    }
  }

  function Min(a: int, b: int): int {
    if a < b then a else b
  }

  /** `sorted(ids, key)[:k]`. */
  function Knn(k: nat, ids: seq<string>, key: string -> real): seq<string> {
    Sort(ids, key)[..Min(k, |ids|)]
  }

  /**
    The k nearest ids: `min(k, |ids|)` of them, all from `ids`, distinct when
    `ids` is, in non-decreasing key order, and no omitted id has a smaller
    key than a returned one.
  */
  lemma KnnSpec(k: nat, ids: seq<string>, key: string -> real)
    ensures var r := Knn(k, ids, key);
      && |r| == Min(k, |ids|)
      && (forall y :: y in r ==> y in ids)
      && (NoDup(ids) ==> NoDup(r))
      && SortedBy(r, key)
      && (forall y, z :: y in r && z in ids && z !in r ==> key(y) <= key(z))
  {
    var s := Sort(ids, key);
    SortSpec(ids, key);
    PrefixSpec(s, Min(k, |ids|), key);
  }

  /** A prefix of a sorted sequence is sorted, and no element left out has a smaller key than one kept. */
  lemma PrefixSpec(s: seq<string>, n: nat, key: string -> real)
    requires n <= |s| && SortedBy(s, key)
    ensures forall y :: y in s[..n] ==> y in s
    ensures NoDup(s) ==> NoDup(s[..n])
    ensures SortedBy(s[..n], key)
    ensures forall y, z :: y in s[..n] && z in s && z !in s[..n] ==> key(y) <= key(z)
  {
    var r := s[..n];
    assert forall q :: 0 <= q < |r| ==> r[q] == s[q];
    forall y, z | y in r && z in s && z !in r
      ensures key(y) <= key(z)
    {
      var i :| 0 <= i < |r| && r[i] == y;
      var j :| 0 <= j < |s| && s[j] == z;
      assert n <= j;
    }
  }

  /**
    Index of the first element of minimal key, found by a left-to-right scan:
    the reference for the tie rule of the nearest-node query.
  */
  function ArgMin(s: seq<string>, key: string -> real): (m: nat)
    requires s != []
    ensures m < |s|
    ensures forall j :: 0 <= j < |s| ==> key(s[m]) <= key(s[j])
    ensures forall j :: 0 <= j < m ==> key(s[m]) < key(s[j])
  {
    if |s| == 1 then 0
    else
      var m := ArgMin(s[..|s| - 1], key);
      assert forall j :: 0 <= j < |s| - 1 ==> s[..|s| - 1][j] == s[j];
      if key(s[|s| - 1]) < key(s[m]) then |s| - 1 else m
  }

  /** The stable sort puts first the earliest element of minimal key. */
  lemma {:induction false} SortHead(s: seq<string>, key: string -> real)
    requires s != []
    ensures Sort(s, key)[0] == s[ArgMin(s, key)]
    decreases |s|
  {
    var init := s[..|s| - 1];
    if init != [] {
      SortHead(init, key);
      assert s[ArgMin(init, key)] == init[ArgMin(init, key)];
    }
  }

  /**
    Sorting depends only on how keys compare: a key that orders every pair
    the same way yields the same list. Sorting by distance and by squared
    distance therefore agree for an exact square root.
  */
  lemma {:induction false} SortSameOrder(s: seq<string>, key: string -> real, key': string -> real)
    requires forall a, b :: key(a) < key(b) <==> key'(a) < key'(b)
    ensures Sort(s, key) == Sort(s, key')
    decreases |s|
  {
    if s != [] {
      SortSameOrder(s[..|s| - 1], key, key');
      InsertSameOrder(s[|s| - 1], Sort(s[..|s| - 1], key), key, key');
    }
  }

  lemma {:induction false} InsertSameOrder(x: string, s: seq<string>, key: string -> real, key': string -> real)
    requires forall a, b :: key(a) < key(b) <==> key'(a) < key'(b)
    ensures Insert(x, s, key) == Insert(x, s, key')
    decreases |s|
  {
    if s != [] {
      InsertSameOrder(x, s[1..], key, key');
    }
  }

  /**
    Sorting by distance and sorting by squared distance give the same list,
    for any positions of the ids and an exact square root.
  */
  lemma SortByDistance(s: seq<string>, pos: string -> Point, p: Point, sqrt: real -> real)
    requires ExactSqrt(sqrt)
    ensures Sort(s, x => Dist(pos(x), p, sqrt)) == Sort(s, x => SqDist(pos(x), p))
  {
    var key := (x: string) => Dist(pos(x), p, sqrt);
    var key' := (x: string) => SqDist(pos(x), p);
    forall a, b
      ensures key(a) < key(b) <==> key'(a) < key'(b)
    {
      SqDistZero(pos(a), p);
      SqDistZero(pos(b), p);
      SquareLess(sqrt(SqDist(pos(a), p)), sqrt(SqDist(pos(b), p)));
    }
    SortSameOrder(s, key, key');
  }

  /** The elements of `s` whose key is `c`, in the order of `s`. */
  function Filter(s: seq<string>, key: string -> real, c: real): (r: seq<string>)
    ensures |r| <= |s|
  {
    if s == [] then []
    else (if key(s[0]) == c then [s[0]] else []) + Filter(s[1..], key, c)
  }

  lemma {:induction false} FilterAppend(s: seq<string>, x: string, key: string -> real, c: real)
    ensures Filter(s + [x], key, c) == Filter(s, key, c) + (if key(x) == c then [x] else [])
    decreases |s|
  {
    if s != [] {
      assert (s + [x])[1..] == s[1..] + [x];
      FilterAppend(s[1..], x, key, c);
    }
  }

  /** A sorted sequence whose first key exceeds `c` holds no element of key `c`. */
  lemma {:induction false} FilterSortedAbove(t: seq<string>, key: string -> real, c: real)
    requires SortedBy(t, key) && t != [] && c < key(t[0])
    ensures Filter(t, key, c) == []
    decreases |t|
  {
    FilterCons(t[0], t[1..], key, c);
    assert [t[0]] + t[1..] == t;
    if |t| > 1 {
      assert key(t[0]) <= key(t[1]);
      SortedTail(t, key);
      FilterSortedAbove(t[1..], key, c);
    }
  }

  /** `Filter` of a sequence with a given first element. */
  lemma FilterCons(a: string, t: seq<string>, key: string -> real, c: real)
    ensures Filter([a] + t, key, c) == (if key(a) == c then [a] else []) + Filter(t, key, c)
  {
    assert ([a] + t)[0] == a && ([a] + t)[1..] == t;
  }

  /** The tail of a sorted sequence is sorted. */
  lemma SortedTail(t: seq<string>, key: string -> real)
    requires SortedBy(t, key) && t != []
    ensures SortedBy(t[1..], key)
  {
    forall i, j | 0 <= i < j < |t| - 1
      ensures key(t[1..][i]) <= key(t[1..][j])
    {
      assert t[1..][i] == t[i + 1] && t[1..][j] == t[j + 1];
    }
  }

  /** Inserting into a sorted sequence places `x` after every element of equal key. */
  lemma {:induction false} InsertFilter(x: string, t: seq<string>, key: string -> real, c: real)
    requires SortedBy(t, key)
    ensures Filter(Insert(x, t, key), key, c) == Filter(t, key, c) + (if key(x) == c then [x] else [])
    decreases |t|
  {
    var hx := if key(x) == c then [x] else [];
    if t == [] {
      assert Insert(x, t, key) == [x];
      FilterCons(x, [], key, c);
    } else if key(x) < key(t[0]) {
      assert Insert(x, t, key) == [x] + t;
      FilterCons(x, t, key, c);
      if key(x) == c {
        FilterSortedAbove(t, key, c);
      }
    } else {
      var t' := Insert(x, t[1..], key);
      assert Insert(x, t, key) == [t[0]] + t';
      SortedTail(t, key);
      InsertFilter(x, t[1..], key, c);
      FilterCons(t[0], t', key, c);
      FilterCons(t[0], t[1..], key, c);
      assert [t[0]] + t[1..] == t;
    }
  }

  /** The sort is stable: the elements of every key value keep their input order. */
  lemma {:induction false} SortStable(s: seq<string>, key: string -> real, c: real)
    ensures Filter(Sort(s, key), key, c) == Filter(s, key, c)
    decreases |s|
  {
    if s != [] {
      var init, x := s[..|s| - 1], s[|s| - 1];
      assert s == init + [x];
      SortStable(init, key, c);
      SortSpec(init, key);
      InsertFilter(x, Sort(init, key), key, c);
      FilterAppend(init, x, key, c);
    }
  }

  // ---------------------------------------------------------------- the node dictionary

  /** Id of the start node. */
  const Root: string := "1"

  /** `k` is the decimal id of one of the first `n` nodes. */
  predicate IsIdUpTo(k: string, n: int) {
    IsDigits(k) && 1 <= StringToNat(k) <= n && NatToString(StringToNat(k)) == k
  }

  lemma IdUpTo(j: nat, n: int)
    requires 1 <= j <= n
    ensures IsIdUpTo(NatToString(j), n) && StringToNat(NatToString(j)) == j
  {
    StringToNatOfNatToString(j);
  }

  /** The ids `"1"` .. `str(n)`. */
  function IdSet(n: nat): set<string> {
    if n == 0 then {} else IdSet(n - 1) + {NatToString(n)}
  }

  lemma {:induction false} IdSetMembers(n: nat, k: string)
    ensures k in IdSet(n) <==> IsIdUpTo(k, n)
  {
    if n > 0 {
      IdSetMembers(n - 1, k);
      IdUpTo(n, n);
      if IsIdUpTo(k, n) && StringToNat(k) == n {
        assert k == NatToString(n);
      }
    }
  }

  /** The keys are exactly `"1"` .. `str(len(nodes))`, each node stored under its own id. */
  ghost predicate KeysOk(nodes: map<string, Node>) {
    && nodes.Keys == IdSet(|nodes|)
    && (forall k :: k in nodes ==> nodes[k].id == k)
  }

  /** The dictionary's iteration order: insertion order, which is id order. */
  function IdSeq(n: nat): (s: seq<string>)
    ensures |s| == n
    ensures forall i :: 0 <= i < n ==> s[i] == NatToString(i + 1)
  {
    if n == 0 then [] else IdSeq(n - 1) + [NatToString(n)]
  }

  /** The neighbour maps of all nodes, read from the heap: the part of the tree that changes in place. */
  ghost function Neighbors(nodes: map<string, Node>): (nbrs: map<string, map<string, real>>)
    reads nodes.Values
    ensures nbrs.Keys == nodes.Keys
    ensures forall k :: k in nodes ==> nbrs[k] == nodes[k].neighbors
  {
    map k | k in nodes :: nodes[k].neighbors
  }

  /** Every neighbour id names a node of the dictionary. */
  ghost predicate NeighborsInTree(nodes: map<string, Node>, nbrs: map<string, map<string, real>>) {
    nbrs.Keys == nodes.Keys && forall k, m :: k in nbrs && m in nbrs[k] ==> m in nodes
  }

  // ---------------------------------------------------------------- edge de-duplication

  /** One written line of the edge file: `[ID1, ID2, cost]`. */
  datatype EdgeRow = EdgeRow(id1: nat, id2: nat, cost: real)

  /** Node `u` lists node `v` among its neighbours. */
  ghost predicate Adjacent(nbrs: map<string, map<string, real>>, u: nat, v: nat) {
    NatToString(u) in nbrs && NatToString(v) in nbrs[NatToString(u)]
  }

  /**
    The direction `(u, v)` is written when `u` lists `v` and `v`, visited
    earlier, did not already write `(v, u)`.
  */
  ghost predicate Emitted(nbrs: map<string, map<string, real>>, u: nat, v: nat) {
    Adjacent(nbrs, u, v) && !(v < u && Adjacent(nbrs, v, u))
  }

  /** Row `r` writes a direction that is due, with the cost stored at its first endpoint. */
  ghost predicate RowOk(nbrs: map<string, map<string, real>>, r: EdgeRow) {
    Emitted(nbrs, r.id1, r.id2) && r.cost == nbrs[NatToString(r.id1)][NatToString(r.id2)]
  }

  /** The direction `(a, b)` is visited before neighbour key set `done` of node `u` is finished. */
  predicate VisitedBefore(a: nat, b: nat, u: nat, done: set<string>) {
    a < u || (a == u && NatToString(b) in done)
  }

  /**
    The state of the dedup loop once nodes below `u`, and the neighbours
    `done` of node `u`, have been visited: `saved` records the pairs of
    `rows`, exactly the due directions visited so far, each once.
  */
  ghost predicate EdgeLog(nbrs: map<string, map<string, real>>, rows: seq<EdgeRow>, saved: seq<(nat, nat)>, u: nat, done: set<string>) {
    && |rows| == |saved|
    && (forall i :: 0 <= i < |rows| ==> saved[i] == (rows[i].id1, rows[i].id2))
    && (forall i :: 0 <= i < |rows| ==> RowOk(nbrs, rows[i]) && VisitedBefore(rows[i].id1, rows[i].id2, u, done))
    && (forall a: nat, b: nat :: Emitted(nbrs, a, b) && VisitedBefore(a, b, u, done) ==> (a, b) in saved)
    && (forall i, j :: 0 <= i < j < |saved| ==> saved[i] != saved[j])
  }

  /** One step of the inner loop: neighbour `nb` of node `u`. */
  method VisitNeighbor(nodes: map<string, Node>, ghost nbrs: map<string, map<string, real>>, u: nat, nb: string,
                       rows: seq<EdgeRow>, saved: seq<(nat, nat)>, ghost done: set<string>)
    returns (rows': seq<EdgeRow>, saved': seq<(nat, nat)>)
    requires KeysOk(nodes) && NeighborsInTree(nodes, nbrs) && 1 <= u <= |nodes| && NatToString(u) in nodes
    requires nodes[NatToString(u)].neighbors == nbrs[NatToString(u)]
    requires nb in nodes[NatToString(u)].neighbors && nb !in done
    requires EdgeLog(nbrs, rows, saved, u, done)
    ensures EdgeLog(nbrs, rows', saved', u, done + {nb})
  {
    IdUpTo(u, |nodes|);
    var node := nodes[NatToString(u)];
    IdSetMembers(|nodes|, nb);
    var nodeId := StringToNat(node.id);
    var nbId := StringToNat(nb);
    if (nbId, nodeId) !in saved {
      rows' := rows + [EdgeRow(nodeId, nbId, node.neighbors[nb])];
      saved' := saved + [(nodeId, nbId)];
      LogWrite(nbrs, rows, saved, u, nb, done);
    } else {
      rows', saved' := rows, saved;
      LogSkip(nbrs, rows, saved, u, nb, done);
    }
  }

  /** Writing the direction `(u, nb)` when its reverse is not yet saved keeps the log. */
  lemma LogWrite(nbrs: map<string, map<string, real>>, rows: seq<EdgeRow>, saved: seq<(nat, nat)>, u: nat, nb: string, done: set<string>)
    requires NatToString(u) in nbrs && nb in nbrs[NatToString(u)] && nb !in done
    requires IsDigits(nb) && NatToString(StringToNat(nb)) == nb
    requires (StringToNat(nb), u) !in saved
    requires EdgeLog(nbrs, rows, saved, u, done)
    ensures EdgeLog(nbrs, rows + [EdgeRow(u, StringToNat(nb), nbrs[NatToString(u)][nb])],
                    saved + [(u, StringToNat(nb))], u, done + {nb})
  {
    var v := StringToNat(nb);
    assert Adjacent(nbrs, u, v);
    assert Emitted(nbrs, u, v) by {
      if v < u && Adjacent(nbrs, v, u) {
        assert Emitted(nbrs, v, u) && VisitedBefore(v, u, u, done);
      }
    }
    assert (u, v) !in saved by {
      forall i | 0 <= i < |saved|
        ensures saved[i] != (u, v)
      {
        assert VisitedBefore(rows[i].id1, rows[i].id2, u, done);
      }
    }
    var rows' := rows + [EdgeRow(u, v, nbrs[NatToString(u)][nb])];
    var saved' := saved + [(u, v)];
    assert RowOk(nbrs, rows'[|rows|]);
    forall a: nat, b: nat | Emitted(nbrs, a, b) && VisitedBefore(a, b, u, done + {nb})
      ensures (a, b) in saved'
    {
      StringToNatOfNatToString(b);
    }
  }

  /** Skipping `(u, nb)` when `(nb, u)` is already saved keeps the log: that direction is not due. */
  lemma LogSkip(nbrs: map<string, map<string, real>>, rows: seq<EdgeRow>, saved: seq<(nat, nat)>, u: nat, nb: string, done: set<string>)
    requires NatToString(u) in nbrs && nb in nbrs[NatToString(u)] && nb !in done
    requires IsDigits(nb) && NatToString(StringToNat(nb)) == nb
    requires (StringToNat(nb), u) in saved
    requires EdgeLog(nbrs, rows, saved, u, done)
    ensures EdgeLog(nbrs, rows, saved, u, done + {nb})
  {
    var v := StringToNat(nb);
    assert !Emitted(nbrs, u, v) by {
      var i :| 0 <= i < |saved| && saved[i] == (v, u);
      assert RowOk(nbrs, rows[i]) && VisitedBefore(v, u, u, done);
    }
    forall a: nat, b: nat | Emitted(nbrs, a, b) && VisitedBefore(a, b, u, done + {nb})
      ensures (a, b) in saved
    {
      StringToNatOfNatToString(b);
      assert VisitedBefore(a, b, u, done);
    }
  }

  /** Finishing the neighbours of node `u` is starting node `u + 1`. */
  lemma EdgeLogNext(nbrs: map<string, map<string, real>>, rows: seq<EdgeRow>, saved: seq<(nat, nat)>, u: nat)
    requires NatToString(u) in nbrs
    requires EdgeLog(nbrs, rows, saved, u, nbrs[NatToString(u)].Keys)
    ensures EdgeLog(nbrs, rows, saved, u + 1, {})
  {
    var done := nbrs[NatToString(u)].Keys;
    forall a: nat, b: nat | Emitted(nbrs, a, b) && VisitedBefore(a, b, u + 1, {})
      ensures (a, b) in saved
    {
      assert Adjacent(nbrs, a, b);
      assert VisitedBefore(a, b, u, done);
    }
    forall i | 0 <= i < |rows|
      ensures VisitedBefore(rows[i].id1, rows[i].id2, u + 1, {})
    {
      assert VisitedBefore(rows[i].id1, rows[i].id2, u, done);
    }
  }

  /** The inner loop: all neighbours of node `u`, in any order. */
  method VisitNode(nodes: map<string, Node>, ghost nbrs: map<string, map<string, real>>, u: nat,
                   rows: seq<EdgeRow>, saved: seq<(nat, nat)>)
    returns (rows': seq<EdgeRow>, saved': seq<(nat, nat)>)
    requires KeysOk(nodes) && NeighborsInTree(nodes, nbrs) && 1 <= u <= |nodes| && NatToString(u) in nodes
    requires nodes[NatToString(u)].neighbors == nbrs[NatToString(u)]
    requires EdgeLog(nbrs, rows, saved, u, {})
    ensures EdgeLog(nbrs, rows', saved', u + 1, {})
  {
    var node := nodes[NatToString(u)];
    var rest := node.neighbors.Keys;
    ghost var done: set<string> := {};
    rows', saved' := rows, saved;
    while rest != {}
      invariant rest + done == node.neighbors.Keys && rest !! done
      invariant EdgeLog(nbrs, rows', saved', u, done)
      decreases rest
    {
      var nb :| nb in rest;
      rows', saved' := VisitNeighbor(nodes, nbrs, u, nb, rows', saved', done);
      rest := rest - {nb};
      done := done + {nb};
    }
    EdgeLogNext(nbrs, rows', saved', u);
  }

  /**
    The edge list of `_save_edges` without the file: nodes are visited in id
    order, the neighbours of each in any order, and a direction is skipped
    once its reverse has been written.
  */
  method SaveEdges(nodes: map<string, Node>) returns (rows: seq<EdgeRow>)
    requires KeysOk(nodes) && NeighborsInTree(nodes, Neighbors(nodes))
    ensures forall r :: r in rows ==> RowOk(Neighbors(nodes), r)
    ensures forall u: nat, v: nat :: Emitted(Neighbors(nodes), u, v) ==> exists r :: r in rows && r.id1 == u && r.id2 == v
    ensures forall i, j :: 0 <= i < j < |rows| ==> (rows[i].id1, rows[i].id2) != (rows[j].id1, rows[j].id2)
  {
    ghost var nbrs := Neighbors(nodes);
    EdgeLogStart(nodes, nbrs);
    rows := [];
    var saved: seq<(nat, nat)> := [];
    var u := 1;
    while u <= |nodes|
      invariant 1 <= u <= |nodes| + 1
      invariant EdgeLog(nbrs, rows, saved, u, {})
    {
      IdUpTo(u, |nodes|);
      IdSetMembers(|nodes|, NatToString(u));
      rows, saved := VisitNode(nodes, nbrs, u, rows, saved);
      u := u + 1;
    }
    EdgeLogDone(nodes, nbrs, rows, saved);
  }

  /** Before the first node nothing is due: there is no node `0`. */
  lemma EdgeLogStart(nodes: map<string, Node>, nbrs: map<string, map<string, real>>)
    requires KeysOk(nodes) && nbrs.Keys == nodes.Keys
    ensures EdgeLog(nbrs, [], [], 1, {})
  {
    IdSetMembers(|nodes|, NatToString(0));
    StringToNatOfNatToString(0);
  }

  /** After the last node, the log holds every due direction exactly once. */
  lemma EdgeLogDone(nodes: map<string, Node>, nbrs: map<string, map<string, real>>, rows: seq<EdgeRow>, saved: seq<(nat, nat)>)
    requires KeysOk(nodes) && nbrs.Keys == nodes.Keys
    requires EdgeLog(nbrs, rows, saved, |nodes| + 1, {})
    ensures forall r :: r in rows ==> RowOk(nbrs, r)
    ensures forall u: nat, v: nat :: Emitted(nbrs, u, v) ==> exists r :: r in rows && r.id1 == u && r.id2 == v
    ensures forall i, j :: 0 <= i < j < |rows| ==> (rows[i].id1, rows[i].id2) != (rows[j].id1, rows[j].id2)
  {
    forall a: nat, b: nat | Emitted(nbrs, a, b)
      ensures exists r :: r in rows && r.id1 == a && r.id2 == b
    {
      IdSetMembers(|nodes|, NatToString(a));
      StringToNatOfNatToString(a);
      assert VisitedBefore(a, b, |nodes| + 1, {});
      var i :| 0 <= i < |saved| && saved[i] == (a, b);
      assert rows[i] in rows;
    }
    forall i, j | 0 <= i < j < |rows|
      ensures (rows[i].id1, rows[i].id2) != (rows[j].id1, rows[j].id2)
    {
      assert saved[i] != saved[j];
    }
  }

  /**
    No pair is written in both directions, and when every neighbour entry is
    mirrored the written directions are exactly the adjacent pairs with the
    smaller id first, so each undirected edge appears once, with the cost
    from its endpoint visited first.
  */
  lemma EmittedOnce(nbrs: map<string, map<string, real>>, u: nat, v: nat)
    ensures Emitted(nbrs, u, v) && Emitted(nbrs, v, u) ==> u == v
    ensures Adjacent(nbrs, u, v) && Adjacent(nbrs, v, u) && u != v ==>
      (Emitted(nbrs, u, v) <==> u < v) && (Emitted(nbrs, u, v) != Emitted(nbrs, v, u))
  {
  }

  /**
    `_knn(1, pos)[0]` over the node dictionary: a node whose key is least,
    and the one with the smallest id among those.
  */
  lemma NearestInIdOrder(nodes: map<string, Node>, key: string -> real)
    requires KeysOk(nodes) && 1 <= |nodes|
    ensures var id := Knn(1, IdSeq(|nodes|), key)[0];
      && id in nodes
      && (forall k :: k in nodes ==> key(id) <= key(k))
      && (forall k :: k in nodes && IdNum(k) < IdNum(id) ==> key(id) < key(k))
  {
    var n := |nodes|;
    var ids := IdSeq(n);
    SortHead(ids, key);
    var m := ArgMin(ids, key);
    var id := Knn(1, ids, key)[0];
    assert id == Sort(ids, key)[0];
    assert id == NatToString(m + 1);
    IdUpTo(m + 1, n);
    IdSetMembers(n, id);
    forall k | k in nodes
      ensures key(id) <= key(k)
      ensures IdNum(k) < IdNum(id) ==> key(id) < key(k)
    {
      IdPosition(nodes, k);
    }
  }

  /** Node `k` stands at position `int(k) - 1` of the ids in order. */
  lemma IdPosition(nodes: map<string, Node>, k: string)
    requires KeysOk(nodes) && k in nodes
    ensures 1 <= IdNum(k) <= |nodes| && IdSeq(|nodes|)[IdNum(k) - 1] == k
  {
    IdSetMembers(|nodes|, k);
  }
}
