/** The Rust `dijkstra` (rust/src/main.rs): every node id starts in a queue;
    each round removes the queued id of least distance and relaxes all edges
    touching it. */
module RustMain {
  import opened Wrappers
  import opened RustModel
  import Walks

  /** The distance recorded for `k`, `u32::MAX` when there is none. */
  function DistanceOf(dist: map<NodeId, Option<U32>>, k: NodeId): U32 {
    if k in dist then dist[k].GetOr(U32_MAX) else U32_MAX
  }

  /** The key `min_by_key` compares, `distances.get(id)`: an
      `Option<&Option<u32>>`, ordered `None < Some(None) < Some(Some(d))`,
      the last by `d`. */
  function Key(dist: map<NodeId, Option<U32>>, id: NodeId): int {
    if id !in dist then -2
    else match dist[id]
      case None => -1
      case Some(d) => d
  }

  /** The position `queue.iter().enumerate().min_by_key(..)` yields: a least
      key, the earliest one on ties. */
  function MinByKey(queue: seq<NodeId>, dist: map<NodeId, Option<U32>>): (i: nat)
    requires |queue| > 0
    ensures i < |queue|
    ensures forall j :: 0 <= j < |queue| ==> Key(dist, queue[i]) <= Key(dist, queue[j])
    ensures forall j :: 0 <= j < i ==> Key(dist, queue[i]) < Key(dist, queue[j])
  {
    if |queue| == 1 then 0
    else
      var m := MinByKey(queue[..|queue| - 1], dist);
      if Key(dist, queue[|queue| - 1]) < Key(dist, queue[m]) then |queue| - 1 else m
  }

  /** Among ids that all have a distance, the one `MinByKey` picks has the
      least distance. */
  lemma MinByKeyLeast(queue: seq<NodeId>, dist: map<NodeId, Option<U32>>)
    requires |queue| > 0
    requires forall q :: q in queue ==> q in dist && dist[q].Some?
    ensures forall q :: q in queue ==> DistanceOf(dist, queue[MinByKey(queue, dist)]) <= DistanceOf(dist, q)
  {
    var m := MinByKey(queue, dist);
    forall q | q in queue ensures DistanceOf(dist, queue[m]) <= DistanceOf(dist, q) {
      var j :| 0 <= j < |queue| && queue[j] == q;
      assert Key(dist, queue[m]) <= Key(dist, queue[j]);
    }
  }

  /** No id occurs twice. */
  ghost predicate Distinct(q: seq<NodeId>) {
    forall k :: multiset(q)[k] <= 1
  }

  /** Every id has a distance. */
  ghost predicate AllSome(dist: map<NodeId, Option<U32>>) {
    forall k :: k in dist ==> dist[k].Some?
  }

  /** The edge `e` at `x` is relaxed: its other end has a distance, at most
      `x`'s plus the weight. */
  ghost predicate RelaxedEdge(dist: map<NodeId, Option<U32>>, x: NodeId, e: Edge) {
    e.GetNeighbourNodeId(x) in dist && DistanceOf(dist, e.GetNeighbourNodeId(x)) <= DistanceOf(dist, x) + e.weight
  }

  /** Every edge touching `x` is relaxed. */
  ghost predicate Relaxed(edges: set<Edge>, dist: map<NodeId, Option<U32>>, x: NodeId) {
    forall e {:trigger e.Contains(x)} :: e in edges && e.Contains(x) ==> RelaxedEdge(dist, x, e)
  }

  /** Every predecessor link is an edge of the graph along which the
      distance rises by exactly the edge's weight. */
  ghost predicate PrevTight(edges: set<Edge>, dist: map<NodeId, Option<U32>>, prev: map<NodeId, Option<NodeId>>) {
    forall n {:trigger prev[n]} :: n in prev && prev[n].Some? ==>
      exists e {:trigger Walks.Joins(e.ToLink(), prev[n].value, n)} :: e in edges && Walks.Joins(e.ToLink(), prev[n].value, n)
        && DistanceOf(dist, n) == DistanceOf(dist, prev[n].value) + e.weight
  }

  /** The shape of the two maps: keyed by the graph's ids (and the start),
      the start at 0 without predecessor, and a node other than the start
      has a predecessor exactly when its distance is below `u32::MAX`. */
  ghost predicate Labels(ids: set<NodeId>, s: NodeId, dist: map<NodeId, Option<U32>>, prev: map<NodeId, Option<NodeId>>) {
    && dist.Keys == ids + {s}
    && prev.Keys == ids
    && AllSome(dist)
    && dist[s] == Some(0)
    && (s in prev ==> prev[s] == None)
    && forall n {:trigger prev[n]} :: n in prev && n != s ==> (prev[n] == None <==> dist[n] == Some(U32_MAX))
  }

  /** What a completed run leaves behind. */
  ghost predicate Finished(g: Graph, s: NodeId, dist: map<NodeId, Option<U32>>, prev: map<NodeId, Option<NodeId>>) {
    && Labels(Ids(g.nodes), s, dist, prev)
    && PrevTight(g.edges, dist, prev)
    && (forall n :: n in Ids(g.nodes) ==> Rooted(prev, n, |Ids(g.nodes)|))
    && (forall n :: n in Ids(g.nodes) ==> Relaxed(g.edges, dist, n))
  }

  /** `d` is the least weight of a walk from `s` to `x`: no walk is
      lighter, and below `u32::MAX` some walk weighs exactly `d`. */
  ghost predicate ShortestDistance(g: Graph, s: NodeId, x: NodeId, d: int) {
    && (forall vs: seq<int>, ls :: Walks.IsWalk(Links(g), vs, ls) && vs[0] == s && vs[|vs| - 1] == x ==> d <= Walks.Weight(ls))
    && (d < U32_MAX ==> exists vs: seq<int>, ls :: Walks.IsWalk(Links(g), vs, ls) && vs[0] == s && vs[|vs| - 1] == x && Walks.Weight(ls) == d)
  }

  /** Why a run panicked: an edge leads from a node of the graph to an id
      that is not one, or the weight of an edge at a removed node, added to
      that node's distance, overflows. When the start is a node, that
      distance is the node's shortest distance from the start. */
  ghost predicate Panicked(g: Graph, s: NodeId, err: Panic) {
    match err
    case MissingKey(id) =>
      && id !in Ids(g.nodes) && id != s
      && exists e, x :: e in g.edges && x in Ids(g.nodes) && e.Contains(x) && e.GetNeighbourNodeId(x) == id
    case AddOverflow(w, d) =>
      exists x :: x in Ids(g.nodes) && OverflowAt(g, x, err) && (s in Ids(g.nodes) ==> ShortestDistance(g, s, x, d))
  }

  /** Adding the weight of an edge at `x` to `x`'s distance overflows. */
  ghost predicate OverflowAt(g: Graph, x: NodeId, err: Panic) {
    && err.AddOverflow? && err.lhs + err.rhs > U32_MAX
    && exists e :: e in g.edges && e.Contains(x) && e.weight == err.lhs
  }

  /** Every id of `xs` still at `u32::MAX` touches only edges of weight 0:
      adding any other weight to its distance overflows. */
  ghost predicate Idle(edges: set<Edge>, dist: map<NodeId, Option<U32>>, xs: set<NodeId>) {
    forall x, e {:trigger e.Contains(x), x in xs} :: x in xs && DistanceOf(dist, x) == U32_MAX && e in edges && e.Contains(x) ==> e.weight == 0
  }

  /** Every predecessor is ranked (already removed from the queue), and
      before its successor when that is ranked too. */
  ghost predicate PrevRanked(prev: map<NodeId, Option<NodeId>>, rank: map<NodeId, nat>) {
    forall n {:trigger prev[n]} :: n in prev && prev[n].Some? ==>
      prev[n].value in rank && (n in rank ==> rank[prev[n].value] < rank[n])
  }

  /** The bookkeeping of the queue: it holds, once each, the ids not yet
      removed; `rank` numbers the removed ones in removal order. */
  ghost predicate Queued(ids: set<NodeId>, queue: seq<NodeId>, rank: map<NodeId, nat>) {
    && Distinct(queue)
    && (forall k :: k in queue <==> k in ids && k !in rank)
    && rank.Keys <= ids
    && (forall k {:trigger rank[k]} :: k in rank ==> rank[k] < |rank|)
  }

  /** The invariant of the outer loop. */
  ghost predicate Round(edges: set<Edge>, ids: set<NodeId>, s: NodeId, dist: map<NodeId, Option<U32>>, prev: map<NodeId, Option<NodeId>>,
                        queue: seq<NodeId>, rank: map<NodeId, nat>, last: int)
  {
    && Labels(ids, s, dist, prev)
    && Queued(ids, queue, rank)
    && (forall r :: r in rank ==> DistanceOf(dist, r) <= last)
    && (forall q :: q in queue ==> last <= DistanceOf(dist, q))
    && PrevTight(edges, dist, prev)
    && PrevRanked(prev, rank)
    && (forall x :: x in rank ==> Relaxed(edges, dist, x))
  }

  /** The invariant of the inner loop, after the edges `edges[..i]` of
      `active` have been relaxed. */
  ghost predicate Relaxing(edges: set<Edge>, ids: set<NodeId>, s: NodeId, dist: map<NodeId, Option<U32>>, prev: map<NodeId, Option<NodeId>>,
                           queue: seq<NodeId>, rank: map<NodeId, nat>, active: NodeId, es: seq<Edge>, i: nat)
  {
    && Labels(ids, s, dist, prev)
    && active in rank && active in ids
    && (forall k :: k in queue ==> k in ids && k !in rank)
    && (forall r :: r in rank ==> DistanceOf(dist, r) <= DistanceOf(dist, active))
    && (forall q :: q in queue ==> DistanceOf(dist, active) <= DistanceOf(dist, q))
    && PrevTight(edges, dist, prev)
    && PrevRanked(prev, rank)
    && (forall x :: x in rank && x != active ==> Relaxed(edges, dist, x))
    && i <= |es|
    && (forall j :: 0 <= j < i ==> RelaxedEdge(dist, active, es[j]))
  }

  /** Removing position `index` from a queue without repeats removes that
      id, and no other. */
  lemma RemoveAt(queue: seq<NodeId>, index: nat)
    requires Distinct(queue) && index < |queue|
    ensures multiset(queue[..index] + queue[index + 1..]) == multiset(queue) - multiset{queue[index]}
    ensures Distinct(queue[..index] + queue[index + 1..])
    ensures forall k :: k in queue[..index] + queue[index + 1..] <==> k in queue && k != queue[index]
  {
    assert queue == queue[..index] + [queue[index]] + queue[index + 1..];
  }

  /** Ranking `active`, the queued id removed last, keeps the queue's
      bookkeeping. */
  lemma PopQueued(ids: set<NodeId>, queue: seq<NodeId>, rank: map<NodeId, nat>, active: NodeId, queue': seq<NodeId>)
    requires Queued(ids, queue, rank) && active in queue
    requires Distinct(queue') && forall k :: k in queue' <==> k in queue && k != active
    ensures active !in rank && active in ids
    ensures Queued(ids, queue', rank[active := |rank|])
  {
    var rank' := rank[active := |rank|];
    assert active !in rank;
    forall k | k in rank' ensures rank'[k] < |rank'| {
      if k != active { assert rank[k] < |rank|; }
    }
  }

  /** Ranking an unranked id after all others keeps predecessors ranked
      before their successors. */
  lemma PopRanked(prev: map<NodeId, Option<NodeId>>, rank: map<NodeId, nat>, active: NodeId)
    requires PrevRanked(prev, rank) && active !in rank
    requires forall k :: k in rank ==> rank[k] < |rank|
    ensures PrevRanked(prev, rank[active := |rank|])
  {
    var rank' := rank[active := |rank|];
    forall n | n in prev && prev[n].Some? ensures prev[n].value in rank' && (n in rank' ==> rank'[prev[n].value] < rank'[n]) {
      assert prev[n].value in rank;
    }
  }

  /** Removing the queued id of least distance starts its round. */
  lemma PopStep(edges: set<Edge>, ids: set<NodeId>, s: NodeId, dist: map<NodeId, Option<U32>>, prev: map<NodeId, Option<NodeId>>,
                queue: seq<NodeId>, rank: map<NodeId, nat>, last: int, active: NodeId, queue': seq<NodeId>, es: seq<Edge>)
    requires Round(edges, ids, s, dist, prev, queue, rank, last)
    requires active in queue && forall q :: q in queue ==> DistanceOf(dist, active) <= DistanceOf(dist, q)
    requires Distinct(queue') && forall k :: k in queue' <==> k in queue && k != active
    ensures Queued(ids, queue', rank[active := |rank|])
    ensures Relaxing(edges, ids, s, dist, prev, queue', rank[active := |rank|], active, es, 0)
    ensures rank[active := |rank|].Keys - {active} == rank.Keys
  {
    PopQueued(ids, queue, rank, active, queue');
    PopRanked(prev, rank, active);
    var rank' := rank[active := |rank|];
    assert forall r :: r in rank' ==> DistanceOf(dist, r) <= DistanceOf(dist, active) by {
      assert last <= DistanceOf(dist, active);
    }
  }

  /** Lowering the distance of `nb` to `v` keeps every relaxed edge whose
      far end is not `nb`-side-raised: distances only go down, and the
      ranked ids, which are not `nb`, keep theirs. */
  lemma LowerKeepsRelaxed(edges: set<Edge>, dist: map<NodeId, Option<U32>>, rank: map<NodeId, nat>, active: NodeId,
                          nb: NodeId, v: U32)
    requires AllSome(dist) && nb in dist && v < DistanceOf(dist, nb)
    requires nb !in rank
    requires forall x :: x in rank && x != active ==> Relaxed(edges, dist, x)
    ensures forall x :: x in rank && x != active ==> Relaxed(edges, dist[nb := Some(v)], x)
  {
    var dist' := dist[nb := Some(v)];
    forall x, e | x in rank && x != active && e in edges && e.Contains(x) ensures RelaxedEdge(dist', x, e) {
      assert RelaxedEdge(dist, x, e);
    }
  }

  /** Lowering the distance of `nb` to `active`'s plus the weight of an
      edge joining them, and making `active` its predecessor, keeps every
      predecessor link tight. */
  lemma LowerKeepsTight(edges: set<Edge>, dist: map<NodeId, Option<U32>>, prev: map<NodeId, Option<NodeId>>,
                        rank: map<NodeId, nat>, active: NodeId, e: Edge)
    requires e in edges && e.Contains(active)
    requires active in rank && e.GetNeighbourNodeId(active) !in rank
    requires DistanceOf(dist, active) + e.weight < DistanceOf(dist, e.GetNeighbourNodeId(active))
    requires PrevTight(edges, dist, prev) && PrevRanked(prev, rank)
    ensures
      var nb := e.GetNeighbourNodeId(active);
      PrevTight(edges, dist[nb := Some(DistanceOf(dist, active) + e.weight)], prev[nb := Some(active)])
  {
    var nb := e.GetNeighbourNodeId(active);
    var dist' := dist[nb := Some(DistanceOf(dist, active) + e.weight)];
    var prev' := prev[nb := Some(active)];
    NeighbourJoins(e, active, nb);
    forall n | n in prev' && prev'[n].Some?
      ensures exists e' :: (e' in edges && Walks.Joins(e'.ToLink(), prev'[n].value, n)
        && DistanceOf(dist', n) == DistanceOf(dist', prev'[n].value) + e'.weight)
    {
      if n == nb {
        assert Walks.Joins(e.ToLink(), active, nb);
      } else {
        var e' :| e' in edges && Walks.Joins(e'.ToLink(), prev[n].value, n)
          && DistanceOf(dist, n) == DistanceOf(dist, prev[n].value) + e'.weight;
        assert prev[n].value in rank;
      }
    }
  }

  /** Lowering the distance of a node other than the start, below
      `u32::MAX`, while giving it a predecessor keeps the shape of the maps. */
  lemma LowerKeepsLabels(ids: set<NodeId>, s: NodeId, dist: map<NodeId, Option<U32>>, prev: map<NodeId, Option<NodeId>>,
                         nb: NodeId, v: U32, p: NodeId)
    requires Labels(ids, s, dist, prev)
    requires nb in dist && nb != s && v < DistanceOf(dist, nb)
    ensures Labels(ids, s, dist[nb := Some(v)], prev[nb := Some(p)])
  {
  }

  /** Lowering the distance of an unranked node to no less than `active`'s
      keeps `active` between the ranked and the queued ids. */
  lemma LowerKeepsOrder(dist: map<NodeId, Option<U32>>, queue: seq<NodeId>, rank: map<NodeId, nat>, active: NodeId,
                        nb: NodeId, v: U32)
    requires active in rank && nb !in rank
    requires DistanceOf(dist, active) <= v
    requires forall r :: r in rank ==> DistanceOf(dist, r) <= DistanceOf(dist, active)
    requires forall q :: q in queue ==> DistanceOf(dist, active) <= DistanceOf(dist, q)
    ensures forall r :: r in rank ==> DistanceOf(dist[nb := Some(v)], r) <= DistanceOf(dist[nb := Some(v)], active)
    ensures forall q :: q in queue ==> DistanceOf(dist[nb := Some(v)], active) <= DistanceOf(dist[nb := Some(v)], q)
  {
  }

  /** Lowering the distance of the far end of `es[i]` to `active`'s plus
      its weight relaxes `es[i]` and keeps the earlier edges relaxed. */
  lemma LowerKeepsEdges(dist: map<NodeId, Option<U32>>, active: NodeId, es: seq<Edge>, i: nat, nb: NodeId, distance: U32)
    requires i < |es| && nb == es[i].GetNeighbourNodeId(active) && nb in dist && nb != active
    requires distance == DistanceOf(dist, active) + es[i].weight && distance < DistanceOf(dist, nb)
    requires forall j :: 0 <= j < i ==> RelaxedEdge(dist, active, es[j])
    ensures forall j :: 0 <= j < i + 1 ==> RelaxedEdge(dist[nb := Some(distance)], active, es[j])
  {
    forall j | 0 <= j < i + 1 ensures RelaxedEdge(dist[nb := Some(distance)], active, es[j]) {
      if j < i { assert RelaxedEdge(dist, active, es[j]); }
    }
  }

  /** A relaxation that lowers the neighbour's distance keeps the inner
      invariant and relaxes one more edge. */
  lemma RelaxLower(edges: set<Edge>, ids: set<NodeId>, s: NodeId, dist: map<NodeId, Option<U32>>, prev: map<NodeId, Option<NodeId>>,
                   queue: seq<NodeId>, rank: map<NodeId, nat>, active: NodeId, es: seq<Edge>, i: nat, nb: NodeId, distance: U32,
                   dist': map<NodeId, Option<U32>>, prev': map<NodeId, Option<NodeId>>)
    requires Relaxing(edges, ids, s, dist, prev, queue, rank, active, es, i)
    requires i < |es| && es[i] in edges && es[i].Contains(active)
    requires nb == es[i].GetNeighbourNodeId(active) && nb in dist
    requires distance == DistanceOf(dist, active) + es[i].weight && distance < DistanceOf(dist, nb)
    requires dist' == dist[nb := Some(distance)] && prev' == prev[nb := Some(active)]
    ensures Relaxing(edges, ids, s, dist', prev', queue, rank, active, es, i + 1)
    ensures nb !in rank
    ensures DistanceOf(dist', active) < U32_MAX
  {
    var e := es[i];
    assert nb !in rank;
    assert Labels(ids, s, dist', prev') by {
      assert nb != s;
      LowerKeepsLabels(ids, s, dist, prev, nb, distance, active);
    }
    assert PrevRanked(prev', rank);
    assert PrevTight(edges, dist', prev') by {
      LowerKeepsTight(edges, dist, prev, rank, active, e);
    }
    assert forall x :: x in rank && x != active ==> Relaxed(edges, dist', x) by {
      LowerKeepsRelaxed(edges, dist, rank, active, nb, distance);
    }
    assert (forall r :: r in rank ==> DistanceOf(dist', r) <= DistanceOf(dist', active))
        && (forall q :: q in queue ==> DistanceOf(dist', active) <= DistanceOf(dist', q)) by {
      LowerKeepsOrder(dist, queue, rank, active, nb, distance);
    }
    LowerKeepsEdges(dist, active, es, i, nb, distance);
  }

  /** A relaxation that finds the neighbour's distance already no larger
      changes nothing and relaxes one more edge. */
  lemma RelaxKeep(edges: set<Edge>, ids: set<NodeId>, s: NodeId, dist: map<NodeId, Option<U32>>, prev: map<NodeId, Option<NodeId>>,
                  queue: seq<NodeId>, rank: map<NodeId, nat>, active: NodeId, es: seq<Edge>, i: nat)
    requires Relaxing(edges, ids, s, dist, prev, queue, rank, active, es, i)
    requires i < |es| && es[i].GetNeighbourNodeId(active) in dist
    requires DistanceOf(dist, es[i].GetNeighbourNodeId(active)) <= DistanceOf(dist, active) + es[i].weight
    ensures Relaxing(edges, ids, s, dist, prev, queue, rank, active, es, i + 1)
  {
  }

  /** Once all edges of `active` are relaxed, the outer invariant holds again. */
  lemma RoundEnd(edges: set<Edge>, ids: set<NodeId>, s: NodeId, dist: map<NodeId, Option<U32>>, prev: map<NodeId, Option<NodeId>>,
                 queue: seq<NodeId>, rank: map<NodeId, nat>, active: NodeId, es: seq<Edge>)
    requires Relaxing(edges, ids, s, dist, prev, queue, rank, active, es, |es|)
    requires Queued(ids, queue, rank)
    requires forall e :: e in es <==> e in edges && e.Contains(active)
    ensures Round(edges, ids, s, dist, prev, queue, rank, DistanceOf(dist, active))
  {
    forall e | e in edges && e.Contains(active) ensures RelaxedEdge(dist, active, e) {
      var j :| 0 <= j < |es| && es[j] == e;
    }
    assert Relaxed(edges, dist, active);
  }

  /** Ranks that strictly decrease along predecessor links make every
      backward walk reach a root. */
  lemma {:induction false} RankedRooted(prev: map<NodeId, Option<NodeId>>, rank: map<NodeId, nat>, n: NodeId, k: nat)
    requires rank.Keys <= prev.Keys
    requires PrevRanked(prev, rank)
    requires n in rank && rank[n] <= k
    ensures Rooted(prev, n, k)
    decreases k
  {
    if prev[n].Some? {
      RankedRooted(prev, rank, prev[n].value, k - 1);
    }
  }

  /** Once the queue is empty, every id is ranked, so the run is finished. */
  lemma RoundsDone(g: Graph, ids: set<NodeId>, s: NodeId, dist: map<NodeId, Option<U32>>, prev: map<NodeId, Option<NodeId>>,
                   rank: map<NodeId, nat>, last: int)
    requires ids == Ids(g.nodes)
    requires Round(g.edges, ids, s, dist, prev, [], rank, last)
    ensures Finished(g, s, dist, prev)
    ensures rank.Keys == ids
  {
    assert rank.Keys == ids;
    forall n | n in ids ensures Rooted(prev, n, |ids|) {
      RankedRooted(prev, rank, n, |ids|);
    }
  }

  /** The inner loop of `dijkstra` (rust/src/main.rs): relax every edge of
      `active` in turn; `Some` is the panic that stops the run. */
  method RelaxNeighbours(graph: Graph, result: ResultSet, active: NodeId, all_neighbours_edge: seq<Edge>,
                         ghost ids: set<NodeId>, ghost s: NodeId, ghost queue: seq<NodeId>, ghost rank: map<NodeId, nat>,
                         ghost done: set<NodeId>, ghost d0: U32)
    returns (failure: Option<Panic>)
    modifies result
    requires ids == Ids(graph.nodes) && d0 == DistanceOf(result.distances, active)
    requires Relaxing(graph.edges, ids, s, result.distances, result.prev, queue, rank, active, all_neighbours_edge, 0)
    requires Idle(graph.edges, result.distances, done) && forall k :: k in done ==> k in rank
    requires forall e :: e in all_neighbours_edge <==> e in graph.edges && e.Contains(active)
    ensures failure.None? ==> Relaxing(graph.edges, ids, s, result.distances, result.prev, queue, rank, active, all_neighbours_edge, |all_neighbours_edge|)
    ensures failure.None? ==> Idle(graph.edges, result.distances, done)
    ensures failure.None? && DistanceOf(result.distances, active) == U32_MAX ==> Weightless(all_neighbours_edge, |all_neighbours_edge|)
    ensures failure.Some? && failure.value.MissingKey? ==> Panicked(graph, s, failure.value)
    ensures failure.Some? && failure.value.AddOverflow? ==> failure.value.rhs == d0 && OverflowAt(graph, active, failure.value)
  {
    for i := 0 to |all_neighbours_edge|
      invariant Relaxing(graph.edges, ids, s, result.distances, result.prev, queue, rank, active, all_neighbours_edge, i)
      invariant Idle(graph.edges, result.distances, done)
      invariant DistanceOf(result.distances, active) == U32_MAX ==> Weightless(all_neighbours_edge, i)
      invariant DistanceOf(result.distances, active) == d0
    {
      var neighbour_edge := all_neighbours_edge[i];
      var active_distance := result.distances[active].value;
      if neighbour_edge.weight + active_distance > U32_MAX {
        OverflowWitness(graph, active, neighbour_edge, active_distance);
        return Some(AddOverflow(neighbour_edge.weight, active_distance));
      }
      var distance: U32 := neighbour_edge.weight + active_distance;
      var the_neighbour_node_id := neighbour_edge.GetNeighbourNodeId(active);
      var current := result.GetDistance(the_neighbour_node_id);
      if current.Failure? {
        assert neighbour_edge in graph.edges && active in Ids(graph.nodes) && neighbour_edge.Contains(active);
        return Some(current.error);
      }
      if distance < current.value {
        ghost var dist0, prev0 := result.distances, result.prev;
        result.distances := result.distances[the_neighbour_node_id := Some(distance)];
        result.prev := result.prev[the_neighbour_node_id := Some(active)];
        RelaxLower(graph.edges, ids, s, dist0, prev0, queue, rank, active, all_neighbours_edge, i, the_neighbour_node_id, distance,
                   result.distances, result.prev);
        LowerKeepsIdle(graph.edges, dist0, done, the_neighbour_node_id, distance);
      } else {
        assert DistanceOf(result.distances, active) == U32_MAX ==> neighbour_edge.weight == 0;
        RelaxKeep(graph.edges, ids, s, result.distances, result.prev, queue, rank, active, all_neighbours_edge, i);
      }
    }
    return None;
  }

  /** An edge at `x` whose weight added to `d` overflows witnesses it. */
  lemma OverflowWitness(g: Graph, x: NodeId, e: Edge, d: U32)
    requires e in g.edges && e.Contains(x) && e.weight + d > U32_MAX
    ensures OverflowAt(g, x, AddOverflow(e.weight, d))
  {
  }

  /** The ids at either end of some edge. */
  ghost function Ends(g: Graph): set<int> {
    (set e | e in g.edges :: e.nodes_ids.0) + (set e | e in g.edges :: e.nodes_ids.1)
  }

  /** The recorded distances capped at `cap`, with `cap` for the ends of
      edges that have none. */
  ghost function Capped(g: Graph, dist: map<NodeId, Option<U32>>, cap: int): map<int, int> {
    map n: int | n in dist.Keys + Ends(g) :: if n in dist && DistanceOf(dist, n) < cap then DistanceOf(dist, n) else cap
  }

  /** When the start is a node, every removed id's edges are relaxed and
      every queued id is at least `cap`, the distances capped at `cap` let
      no edge undercut them. */
  lemma CappedClosed(g: Graph, s: NodeId, dist: map<NodeId, Option<U32>>, prev: map<NodeId, Option<NodeId>>,
                     queue: seq<NodeId>, rank: map<NodeId, nat>, last: int, cap: int)
    requires Round(g.edges, Ids(g.nodes), s, dist, prev, queue, rank, last) && s in Ids(g.nodes)
    requires forall q :: q in queue ==> cap <= DistanceOf(dist, q)
    ensures Walks.Closed(Links(g), Capped(g, dist, cap))
  {
    var pot := Capped(g, dist, cap);
    forall l, x, y | l in Links(g) && Walks.Joins(l, x, y) && x in pot
      ensures y in pot && pot[y] <= pot[x] + l.w
    {
      var e :| e in g.edges && e.ToLink() == l;
      NeighbourJoins(e, x, y);
      assert y in Ends(g);
      if x in rank {
        assert RelaxedEdge(dist, x, e);
      } else if x in dist {
        assert x in queue;
      }
    }
  }

  /** Following tight predecessor links back from `t` to a root gives a
      walk from the start whose weight is `t`'s distance. */
  lemma {:induction false} TightWalk(g: Graph, s: NodeId, dist: map<NodeId, Option<U32>>, prev: map<NodeId, Option<NodeId>>,
                                     t: NodeId, k: nat)
    requires Labels(Ids(g.nodes), s, dist, prev) && PrevTight(g.edges, dist, prev)
    requires Rooted(prev, t, k) && (t == s || DistanceOf(dist, t) < U32_MAX)
    ensures exists vs: seq<int>, ls :: Walks.IsWalk(Links(g), vs, ls) && vs[0] == s && vs[|vs| - 1] == t && Walks.Weight(ls) == DistanceOf(dist, t)
    decreases k
  {
    if prev[t].None? {
      assert Walks.IsWalk(Links(g), [s], []);
    } else {
      var p := prev[t].value;
      var e :| e in g.edges && Walks.Joins(e.ToLink(), p, t) && DistanceOf(dist, t) == DistanceOf(dist, p) + e.weight;
      assert t != s && DistanceOf(dist, p) < U32_MAX;
      TightWalk(g, s, dist, prev, p, k - 1);
      var vs: seq<int>, ls :| Walks.IsWalk(Links(g), vs, ls) && vs[0] == s && vs[|vs| - 1] == p && Walks.Weight(ls) == DistanceOf(dist, p);
      assert e.ToLink() in Links(g);
      Walks.WalkSnoc(Links(g), vs, ls, e.ToLink(), t);
      assert (vs + [t])[0] == s;
    }
  }

  /** When the start is a node, the queued id of least distance is at its
      shortest distance from the start: the heart of Dijkstra's algorithm. */
  lemma PopShortest(g: Graph, s: NodeId, dist: map<NodeId, Option<U32>>, prev: map<NodeId, Option<NodeId>>,
                    queue: seq<NodeId>, rank: map<NodeId, nat>, last: int, active: NodeId)
    requires Round(g.edges, Ids(g.nodes), s, dist, prev, queue, rank, last) && s in Ids(g.nodes)
    requires active in queue && forall q :: q in queue ==> DistanceOf(dist, active) <= DistanceOf(dist, q)
    ensures ShortestDistance(g, s, active, DistanceOf(dist, active))
  {
    var d := DistanceOf(dist, active);
    CappedClosed(g, s, dist, prev, queue, rank, last, d);
    forall vs, ls | Walks.IsWalk(Links(g), vs, ls) && vs[0] == s && vs[|vs| - 1] == active
      ensures d <= Walks.Weight(ls)
    {
      Walks.WalkBound(Links(g), Capped(g, dist, d), vs, ls);
    }
    if d < U32_MAX {
      if prev[active].Some? {
        var p := prev[active].value;
        RankedRooted(prev, rank, p, rank[p]);
        assert Rooted(prev, active, rank[p] + 1);
        TightWalk(g, s, dist, prev, active, rank[p] + 1);
      } else {
        TightWalk(g, s, dist, prev, active, 0);
      }
    }
  }

  /** The first `n` edges of `es` weigh 0. */
  ghost predicate Weightless(es: seq<Edge>, n: nat)
    requires n <= |es|
  {
    n == 0 || (es[n - 1].weight == 0 && Weightless(es, n - 1))
  }

  /** Each of the first `n` edges weighs 0. */
  lemma {:induction false} WeightlessAt(es: seq<Edge>, n: nat, j: nat)
    requires n <= |es| && Weightless(es, n) && j < n
    ensures es[j].weight == 0
  {
    if j < n - 1 {
      WeightlessAt(es, n - 1, j);
    }
  }

  /** Lowering the distance of an id outside `xs` keeps `xs` idle. */
  lemma LowerKeepsIdle(edges: set<Edge>, dist: map<NodeId, Option<U32>>, xs: set<NodeId>, nb: NodeId, v: U32)
    requires Idle(edges, dist, xs) && nb !in xs
    ensures Idle(edges, dist[nb := Some(v)], xs)
  {
    forall x, e | x in xs && DistanceOf(dist[nb := Some(v)], x) == U32_MAX && e in edges && e.Contains(x)
      ensures e.weight == 0
    {
      assert DistanceOf(dist, x) == U32_MAX;
    }
  }

  /** If `active` is at `u32::MAX` and all its edges weigh 0, it is idle
      along with the other ids of `xs`. */
  lemma ActiveIdle(edges: set<Edge>, dist: map<NodeId, Option<U32>>, xs: set<NodeId>, active: NodeId, es: seq<Edge>)
    requires Idle(edges, dist, xs - {active})
    requires DistanceOf(dist, active) == U32_MAX ==> Weightless(es, |es|)
    requires forall e :: e in es <==> e in edges && e.Contains(active)
    ensures Idle(edges, dist, xs)
  {
    forall x, e | x in xs && DistanceOf(dist, x) == U32_MAX && e in edges && e.Contains(x)
      ensures e.weight == 0
    {
      if x == active {
        var j :| 0 <= j < |es| && es[j] == e;
        WeightlessAt(es, |es|, j);
      } else {
        assert x in xs - {active};
      }
    }
  }

  /** After the set-up the outer invariant holds: nothing is ranked yet. */
  lemma SetupRound(edges: set<Edge>, ids: set<NodeId>, s: NodeId, dist0: map<NodeId, Option<U32>>, dist: map<NodeId, Option<U32>>,
                   prev: map<NodeId, Option<NodeId>>, queue: seq<NodeId>)
    requires dist0.Keys == ids == prev.Keys
    requires forall k :: k in dist0 ==> dist0[k] == Some(U32_MAX)
    requires forall k :: k in prev ==> prev[k] == None
    requires Distinct(queue) && forall k :: k in queue <==> k in ids
    requires dist == dist0[s := Some(0)]
    ensures Round(edges, ids, s, dist, prev, queue, map[], 0)
  {
    assert Labels(ids, s, dist, prev);
    assert Queued(ids, queue, map[]);
    assert forall q :: q in queue ==> 0 <= DistanceOf(dist, q);
  }

  /** The set-up of `dijkstra` (rust/src/main.rs): every node gets distance
      `u32::MAX` and no predecessor and joins the queue; then the start gets
      distance 0. */
  method Setup(graph: Graph, start: Node) returns (result: ResultSet, queue: seq<NodeId>, ghost ids: set<NodeId>)
    ensures fresh(result)
    ensures ids == Ids(graph.nodes)
    ensures Round(graph.edges, ids, start.id, result.distances, result.prev, queue, map[], 0)
  {
    result := new ResultSet();
    queue := [];
    ids := {};
    var rest := graph.nodes;
    while rest != {}
      invariant fresh(result)
      invariant rest <= graph.nodes
      invariant forall k :: k in ids <==> Node(k) in graph.nodes && Node(k) !in rest
      invariant result.distances.Keys == ids == result.prev.Keys
      invariant forall k :: k in result.distances ==> result.distances[k] == Some(U32_MAX)
      invariant forall k :: k in result.prev ==> result.prev[k] == None
      invariant Distinct(queue) && forall k :: k in queue <==> k in ids
      decreases rest
    {
      var node :| node in rest;
      result.distances := result.distances[node.id := Some(U32_MAX)];
      result.prev := result.prev[node.id := None];
      queue := queue + [node.id];
      ids := ids + {node.id};
      rest := rest - {node};
    }
    IdsMember(graph.nodes);
    ghost var dist0 := result.distances;
    result.distances := result.distances[start.id := Some(0)];
    SetupRound(graph.edges, ids, start.id, dist0, result.distances, result.prev, queue);
  }

  /** `dijkstra` (rust/src/main.rs). A run that does not panic is finished,
      and since every id is removed from the queue and has its edges
      relaxed, an id left at `u32::MAX` touches only edges of weight 0. */
  method Dijkstra(graph: Graph, start: Node) returns (res: Result<ResultSet, Panic>)
    ensures res.Success? ==> fresh(res.value) && Finished(graph, start.id, res.value.distances, res.value.prev)
    ensures res.Success? ==> Idle(graph.edges, res.value.distances, Ids(graph.nodes))
    ensures res.Failure? ==> Panicked(graph, start.id, res.error)
  {
    var result, queue, ids := Setup(graph, start);
    ghost var s := start.id;

    ghost var rank: map<NodeId, nat> := map[];
    ghost var last := 0;

    while queue != []
      invariant Round(graph.edges, ids, s, result.distances, result.prev, queue, rank, last)
      invariant Idle(graph.edges, result.distances, rank.Keys)
      decreases |queue|
    {
      var index := MinByKey(queue, result.distances);
      var active := queue[index];
      RemoveAt(queue, index);
      MinByKeyLeast(queue, result.distances);
      ghost var queue0, rank0, dist0, prev0 := queue, rank, result.distances, result.prev;
      queue := queue[..index] + queue[index + 1..];
      rank := rank[active := |rank|];

      var all_neighbours_edge := graph.GetAllNeighbourEdges(active);
      PopStep(graph.edges, ids, s, result.distances, result.prev, queue0, rank0, last, active, queue, all_neighbours_edge);
      var failure := RelaxNeighbours(graph, result, active, all_neighbours_edge, ids, s, queue, rank, rank0.Keys, DistanceOf(result.distances, active));
      if failure.Some? {
        if failure.value.AddOverflow? {
          if s in ids {
            PopShortest(graph, s, dist0, prev0, queue0, rank0, last, active);
          }
          assert active in ids && OverflowAt(graph, active, failure.value);
        }
        return Failure(failure.value);
      }
      RoundEnd(graph.edges, ids, s, result.distances, result.prev, queue, rank, active, all_neighbours_edge);
      ActiveIdle(graph.edges, result.distances, rank.Keys, active, all_neighbours_edge);
      last := DistanceOf(result.distances, active);
    }
    RoundsDone(graph, ids, s, result.distances, result.prev, rank, last);
    return Success(result);
  }

  /** Every edge joins two nodes of the graph. */
  ghost predicate EdgesWithin(g: Graph) {
    forall e :: e in g.edges ==> Node(e.nodes_ids.0) in g.nodes && Node(e.nodes_ids.1) in g.nodes
  }

  /** On a graph whose edges join nodes of the graph, no map lookup can
      miss: the only panic left is an overflowing addition. */
  lemma NoMissingKey(g: Graph, s: NodeId, err: Panic)
    requires EdgesWithin(g) && Panicked(g, s, err)
    ensures err.AddOverflow?
  {
    if err.MissingKey? {
      var e, x :| e in g.edges && x in Ids(g.nodes) && e.Contains(x) && e.GetNeighbourNodeId(x) == err.id;
      IdsMember(g.nodes);
      assert false;
    }
  }

  /** The inner loop with the addition saturating at `u32::MAX`
      (`saturating_add`) instead of overflowing: an id still at `u32::MAX`
      offers its neighbours `u32::MAX`, which lowers nothing. The only
      panic left is a missing key. */
  method RelaxNeighboursSaturating(graph: Graph, result: ResultSet, active: NodeId, all_neighbours_edge: seq<Edge>,
                                   ghost ids: set<NodeId>, ghost s: NodeId, ghost queue: seq<NodeId>, ghost rank: map<NodeId, nat>)
    returns (failure: Option<Panic>)
    modifies result
    requires ids == Ids(graph.nodes)
    requires Relaxing(graph.edges, ids, s, result.distances, result.prev, queue, rank, active, all_neighbours_edge, 0)
    requires forall e :: e in all_neighbours_edge ==> e in graph.edges && e.Contains(active)
    ensures failure.None? ==> Relaxing(graph.edges, ids, s, result.distances, result.prev, queue, rank, active, all_neighbours_edge, |all_neighbours_edge|)
    ensures failure.Some? ==> failure.value.MissingKey? && Panicked(graph, s, failure.value)
  {
    for i := 0 to |all_neighbours_edge|
      invariant Relaxing(graph.edges, ids, s, result.distances, result.prev, queue, rank, active, all_neighbours_edge, i)
    {
      var neighbour_edge := all_neighbours_edge[i];
      var active_distance := result.distances[active].value;
      var distance: U32 := if neighbour_edge.weight + active_distance > U32_MAX then U32_MAX else neighbour_edge.weight + active_distance;
      var the_neighbour_node_id := neighbour_edge.GetNeighbourNodeId(active);
      var current := result.GetDistance(the_neighbour_node_id);
      if current.Failure? {
        assert neighbour_edge in graph.edges && active in Ids(graph.nodes) && neighbour_edge.Contains(active);
        return Some(current.error);
      }
      if distance < current.value {
        ghost var dist0, prev0 := result.distances, result.prev;
        result.distances := result.distances[the_neighbour_node_id := Some(distance)];
        result.prev := result.prev[the_neighbour_node_id := Some(active)];
        RelaxLower(graph.edges, ids, s, dist0, prev0, queue, rank, active, all_neighbours_edge, i, the_neighbour_node_id, distance,
                   result.distances, result.prev);
      } else {
        RelaxKeep(graph.edges, ids, s, result.distances, result.prev, queue, rank, active, all_neighbours_edge, i);
      }
    }
    return None;
  }

  /** `dijkstra` with the saturating addition: a run that does not panic is
      finished, and the only panic is a missing key, so on a graph whose
      edges join nodes of the graph every run completes. */
  method DijkstraSaturating(graph: Graph, start: Node) returns (res: Result<ResultSet, Panic>)
    ensures res.Success? ==> fresh(res.value) && Finished(graph, start.id, res.value.distances, res.value.prev)
    ensures res.Failure? ==> res.error.MissingKey? && Panicked(graph, start.id, res.error)
  {
    var result, queue, ids := Setup(graph, start);
    ghost var s := start.id;

    ghost var rank: map<NodeId, nat> := map[];
    ghost var last := 0;

    while queue != []
      invariant Round(graph.edges, ids, s, result.distances, result.prev, queue, rank, last)
      decreases |queue|
    {
      var index := MinByKey(queue, result.distances);
      var active := queue[index];
      RemoveAt(queue, index);
      MinByKeyLeast(queue, result.distances);
      ghost var queue0, rank0 := queue, rank;
      queue := queue[..index] + queue[index + 1..];
      rank := rank[active := |rank|];

      var all_neighbours_edge := graph.GetAllNeighbourEdges(active);
      PopStep(graph.edges, ids, s, result.distances, result.prev, queue0, rank0, last, active, queue, all_neighbours_edge);
      var failure := RelaxNeighboursSaturating(graph, result, active, all_neighbours_edge, ids, s, queue, rank);
      if failure.Some? {
        return Failure(failure.value);
      }
      RoundEnd(graph.edges, ids, s, result.distances, result.prev, queue, rank, active, all_neighbours_edge);
      last := DistanceOf(result.distances, active);
    }
    RoundsDone(graph, ids, s, result.distances, result.prev, rank, last);
    return Success(result);
  }
}
