/** A graph whose node 2 cannot be reached from node 1: the Rust `dijkstra`
    as written removes node 2 from the queue while it is still at
    `u32::MAX` and adds the weight of its edge to that distance, which
    overflows; with the addition saturating, the run completes and leaves
    the unreachable nodes at `u32::MAX`. */
module RustDisconnected {
  import opened Wrappers
  import opened RustModel
  import opened RustMain
  import Walks

  /** Nodes 1, 2 and 3, and a single edge of weight 1 between 2 and 3. */
  const H: Graph := Graph({Node(1), Node(2), Node(3)}, {Edge((2, 3), 1)})

  /** The ids of `H` are 1, 2 and 3. */
  lemma DisconnectedIds()
    ensures forall k :: k in Ids(H.nodes) <==> k == 1 || k == 2 || k == 3
  {
    IdsMember(H.nodes);
    assert Node(1) in H.nodes && Node(2) in H.nodes && Node(3) in H.nodes;
  }

  /** In a finished run on `H`, a node of the edge other than the start
      and below `u32::MAX` has the other node as predecessor, one lighter. */
  lemma DisconnectedStep(s: NodeId, dist: map<NodeId, Option<U32>>, prev: map<NodeId, Option<NodeId>>, t: NodeId)
    requires Finished(H, s, dist, prev) && (t == 2 || t == 3) && t != s && DistanceOf(dist, t) < U32_MAX
    ensures DistanceOf(dist, t) == DistanceOf(dist, 5 - t) + 1
  {
    DisconnectedIds();
    assert prev[t].Some?;
    var p := prev[t].value;
    var e :| e in H.edges && Walks.Joins(e.ToLink(), p, t) && DistanceOf(dist, t) == DistanceOf(dist, p) + e.weight;
    assert e == Edge((2, 3), 1);
  }

  /** A finished run from node 1 on `H` leaves nodes 2 and 3 at `u32::MAX`:
      each would otherwise be one heavier than the other. */
  lemma DisconnectedUnreached(dist: map<NodeId, Option<U32>>, prev: map<NodeId, Option<NodeId>>)
    requires Finished(H, 1, dist, prev)
    ensures DistanceOf(dist, 2) == U32_MAX && DistanceOf(dist, 3) == U32_MAX
  {
    if DistanceOf(dist, 2) < U32_MAX {
      DisconnectedStep(1, dist, prev, 2);
      DisconnectedStep(1, dist, prev, 3);
    } else if DistanceOf(dist, 3) < U32_MAX {
      DisconnectedStep(1, dist, prev, 3);
    }
  }

  /** No finished run from node 1 on `H` leaves node 2 idle: it stays at
      `u32::MAX` with an edge of weight 1. */
  lemma DisconnectedNotIdle()
    ensures forall dist, prev :: Finished(H, 1, dist, prev) ==> !Idle(H.edges, dist, Ids(H.nodes))
  {
    forall dist, prev | Finished(H, 1, dist, prev) ensures !Idle(H.edges, dist, Ids(H.nodes)) {
      DisconnectedIds();
      DisconnectedUnreached(dist, prev);
      assert Edge((2, 3), 1) in H.edges && Edge((2, 3), 1).Contains(2) && 2 in Ids(H.nodes);
    }
  }

  /** The only panic a run on `H` can raise is adding the edge's weight 1
      to `u32::MAX`. */
  lemma DisconnectedPanic()
    ensures forall err :: Panicked(H, 1, err) ==> err == AddOverflow(1, U32_MAX)
  {
    assert EdgesWithin(H);
    forall err | Panicked(H, 1, err) ensures err == AddOverflow(1, U32_MAX) {
      NoMissingKey(H, 1, err);
    }
  }

  /** `dijkstra` as written, from node 1 on `H`: it panics adding 1 to
      `u32::MAX`. */
  method DisconnectedRun() returns (res: Result<ResultSet, Panic>)
    ensures res == Failure(AddOverflow(1, U32_MAX))
  {
    DisconnectedNotIdle();
    DisconnectedPanic();
    res := Dijkstra(H, Node(1));
  }

  /** The distances a run from node 1 on `H` should leave: 0 for node 1,
      `u32::MAX` for the two nodes it cannot reach. */
  const Unreached: map<NodeId, Option<U32>> := map[1 := Some(0), 2 := Some(U32_MAX), 3 := Some(U32_MAX)]

  /** A finished run from node 1 on `H` leaves exactly those distances. */
  lemma DisconnectedDistances(dist: map<NodeId, Option<U32>>, prev: map<NodeId, Option<NodeId>>)
    requires Finished(H, 1, dist, prev)
    ensures dist == Unreached
  {
    DisconnectedIds();
    DisconnectedUnreached(dist, prev);
    assert dist.Keys == {1, 2, 3};
  }

  /** A finished run from node 1 on `H` leaves no predecessor. */
  lemma DisconnectedPrev(dist: map<NodeId, Option<U32>>, prev: map<NodeId, Option<NodeId>>)
    requires Finished(H, 1, dist, prev)
    ensures prev == map[1 := None, 2 := None, 3 := None]
  {
    DisconnectedIds();
    DisconnectedUnreached(dist, prev);
    assert prev.Keys == {1, 2, 3};
  }

  /** The saturating `dijkstra` from node 1 on `H`: it completes, node 1 at
      0 and nodes 2 and 3 at `u32::MAX` without predecessors. */
  method DisconnectedRunSaturating() returns (res: Result<ResultSet, Panic>)
    ensures res.Success? && res.value.distances == Unreached
    ensures res.value.prev == map[1 := None, 2 := None, 3 := None]
  {
    DisconnectedPanic();
    res := DijkstraSaturating(H, Node(1));
    DisconnectedDistances(res.value.distances, res.value.prev);
    DisconnectedPrev(res.value.distances, res.value.prev);
  }
}
