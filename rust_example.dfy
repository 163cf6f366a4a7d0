/** The example graph of `Graph::default` (rust/src/model.rs), and what any
    completed run of `dijkstra` from node 1 leaves on it: the distances and
    the routes `get_path` returns, as the Rust test expects them. */
module RustExample {
  import opened Wrappers
  import opened RustModel
  import opened RustMain
  import opened RustShortest
  import opened ExampleTable
  import Walks

  /** `generate_nodes` and `generate_edges`: nodes 1 to 9 and the fifteen
      weighted edges between them. */
  const G: Graph :=
    Graph({Node(1), Node(2), Node(3), Node(4), Node(5), Node(6), Node(7), Node(8), Node(9)},
          {Edge((1, 2), 2), Edge((1, 6), 7), Edge((1, 7), 3), Edge((2, 3), 4), Edge((2, 7), 6),
           Edge((3, 4), 2), Edge((3, 9), 2), Edge((4, 5), 1), Edge((4, 9), 8), Edge((5, 6), 6),
           Edge((5, 8), 2), Edge((6, 8), 5), Edge((7, 8), 1), Edge((7, 9), 3), Edge((8, 9), 4)})

  /** The distances the test expects, by id. */
  const Distances: map<NodeId, Option<U32>> := map i: NodeId | 1 <= i <= 9 :: Some(ExpectedDistance(i))

  /** The predecessors along the expected routes: none for node 1, the
      parent for every other node. */
  const Prev: map<NodeId, Option<NodeId>> := map i: NodeId | 1 <= i <= 9 :: if i == 1 then None else Some(Parent(i))

  /** The ids of the example are 1 to 9. */
  lemma ExampleIds()
    ensures forall k :: k in Ids(G.nodes) <==> 1 <= k <= 9
  {
    IdsMember(G.nodes);
    forall k: NodeId | 1 <= k <= 9 ensures Node(k) in G.nodes {
    }
  }

  /** Each edge of the example joins two of its nodes whose expected
      distances differ by at most its weight; when they differ by exactly
      the weight, the nearer node is the farther one's parent. */
  lemma ExampleEdge(e: Edge)
    requires e in G.edges
    ensures var a, b := e.nodes_ids.0, e.nodes_ids.1;
      && 1 <= a <= 9 && 1 <= b <= 9 && e.weight <= 8
      && ExpectedDistance(a) <= ExpectedDistance(b) + e.weight && ExpectedDistance(b) <= ExpectedDistance(a) + e.weight
      && (b != 1 && ExpectedDistance(b) == ExpectedDistance(a) + e.weight ==> Parent(b) == a)
      && (a != 1 && ExpectedDistance(a) == ExpectedDistance(b) + e.weight ==> Parent(a) == b)
  {
  }

  /** Every edge of the example joins two of its nodes. */
  lemma ExampleEdgesWithin()
    ensures EdgesWithin(G)
  {
    forall e | e in G.edges ensures Node(e.nodes_ids.0) in G.nodes && Node(e.nodes_ids.1) in G.nodes {
      ExampleEdge(e);
    }
  }

  /** No edge of the example lets an expected distance undercut another. */
  lemma ExampleClosed()
    ensures Walks.Closed(Links(G), Expected)
  {
    forall l, x, y | l in Links(G) && Walks.Joins(l, x, y) && x in Expected
      ensures y in Expected && Expected[y] <= Expected[x] + l.w
    {
      var e :| e in G.edges && e.ToLink() == l;
      ExampleEdge(e);
    }
  }

  /** Some walk from node 1 to node `i` weighs `d`. */
  ghost predicate WalkFromOne(i: int, d: int) {
    exists vs, ls :: Walks.IsWalk(Links(G), vs, ls) && vs[0] == 1 && vs[|vs| - 1] == i && Walks.Weight(ls) == d
  }

  /** The edge from node `i`'s parent to it. */
  function ParentEdge(i: int): (e: Edge)
    requires 2 <= i <= 9
    ensures e in G.edges && Walks.Joins(e.ToLink(), Parent(i), i)
    ensures ExpectedDistance(i) == ExpectedDistance(Parent(i)) + e.weight
  {
    if i == 2 then Edge((1, 2), 2) else if i == 3 then Edge((2, 3), 4) else if i == 4 then Edge((4, 5), 1)
    else if i == 5 then Edge((5, 8), 2) else if i == 6 then Edge((1, 6), 7) else if i == 7 then Edge((1, 7), 3)
    else if i == 8 then Edge((7, 8), 1) else Edge((7, 9), 3)
  }

  /** Every node of the example has a walk from node 1 as heavy as its
      expected distance, along the parent links. */
  lemma {:induction false} ExampleWalkTo(i: int)
    requires 1 <= i <= 9
    ensures WalkFromOne(i, ExpectedDistance(i))
    decreases ExpectedDistance(i)
  {
    if i == 1 {
      assert Walks.IsWalk(Links(G), [1], []);
    } else {
      var p, e := Parent(i), ParentEdge(i);
      ParentNearer(i);
      ExampleWalkTo(p);
      var vs, ls :| Walks.IsWalk(Links(G), vs, ls) && vs[0] == 1 && vs[|vs| - 1] == p && Walks.Weight(ls) == ExpectedDistance(p);
      assert e.ToLink() in Links(G);
      Walks.WalkSnoc(Links(G), vs, ls, e.ToLink(), i);
      assert (vs + [i])[0] == 1;
    }
  }

  /** A finished run from node 1 on the example records for every node its
      expected distance: no walk is lighter than the recorded distance, and
      the route to the node weighs exactly that much. */
  lemma ExampleDistanceOf(dist: map<NodeId, Option<U32>>, prev: map<NodeId, Option<NodeId>>, i: NodeId)
    requires Finished(G, 1, dist, prev) && 1 <= i <= 9
    ensures DistanceOf(dist, i) == ExpectedDistance(i)
  {
    ExampleIds();
    ExampleWalkTo(i);
    var vs, ls :| Walks.IsWalk(Links(G), vs, ls) && vs[0] == 1 && vs[|vs| - 1] == i && Walks.Weight(ls) == ExpectedDistance(i);
    NoLighterWalk(G, 1, dist, prev, vs, ls);
    RouteIsShortest(G, 1, dist, prev, i);
    var route := Ancestors(prev, i, |Ids(G.nodes)|).value + [i];
    var rs :| Walks.IsWalk(Links(G), route, rs) && Walks.Weight(rs) == DistanceOf(dist, i);
    ExampleClosed();
    Walks.WalkBound(Links(G), Expected, route, rs);
  }

  /** A finished run from node 1 on the example records for every node but
      node 1 its parent as predecessor. */
  lemma ExamplePrev(dist: map<NodeId, Option<U32>>, prev: map<NodeId, Option<NodeId>>, i: NodeId)
    requires Finished(G, 1, dist, prev) && 2 <= i <= 9
    ensures i in prev && prev[i] == Some(Parent(i))
  {
    ExampleIds();
    ExampleDistanceOf(dist, prev, i);
    assert prev[i].Some?;
    var p := prev[i].value;
    var e :| e in G.edges && Walks.Joins(e.ToLink(), p, i) && DistanceOf(dist, i) == DistanceOf(dist, p) + e.weight;
    ExampleEdge(e);
    ExampleDistanceOf(dist, prev, p);
  }

  /** A finished run from node 1 on the example leaves exactly the expected
      distances. */
  lemma ExampleDistances(dist: map<NodeId, Option<U32>>, prev: map<NodeId, Option<NodeId>>)
    requires Finished(G, 1, dist, prev)
    ensures dist == Distances
  {
    ExampleIds();
    forall i ensures i in dist <==> i in Distances {
    }
    forall i | i in dist ensures dist[i] == Distances[i] {
      ExampleDistanceOf(dist, prev, i);
    }
  }

  /** A finished run from node 1 on the example leaves exactly the expected
      predecessors. */
  lemma ExamplePrevs(dist: map<NodeId, Option<U32>>, prev: map<NodeId, Option<NodeId>>)
    requires Finished(G, 1, dist, prev)
    ensures prev == Prev
  {
    ExampleIds();
    forall i ensures i in prev <==> i in Prev {
    }
    forall i | i in prev ensures prev[i] == Prev[i] {
      if i != 1 {
        ExamplePrev(dist, prev, i);
      }
    }
  }

  /** The routes the Rust test asks `get_path` for, followed back from
      their last node through `Prev`. */
  lemma ExampleChains()
    ensures PrevChain(Prev, [1, 7, 8, 5, 4])
    ensures PrevChain(Prev, [1, 2, 3])
    ensures PrevChain(Prev, [1, 6])
    ensures PrevChain(Prev, [1, 7, 9])
  {
  }

  /** After a finished run from node 1 on the example, the backward walk
      from a node along one of the expected chains returns the chain's
      other nodes. */
  lemma ExampleAncestor(dist: map<NodeId, Option<U32>>, prev: map<NodeId, Option<NodeId>>, c: seq<NodeId>)
    requires Finished(G, 1, dist, prev) && PrevChain(Prev, c) && 1 <= c[|c| - 1] <= 9
    ensures Halts(prev, c[|c| - 1], |Ids(G.nodes)|) && Ancestors(prev, c[|c| - 1], |Ids(G.nodes)|) == Success(c[..|c| - 1])
  {
    var t := c[|c| - 1];
    ExampleIds();
    ExamplePrevs(dist, prev);
    ExampleDistanceOf(dist, prev, t);
    RouteIsShortest(G, 1, dist, prev, t);
    ChainIsAncestors(prev, c, |Ids(G.nodes)|);
  }

  /** After a finished run from node 1 on the example, the backward walk
      from nodes 4, 3, 6 and 9 returns their expected routes. */
  lemma ExampleAncestors(dist: map<NodeId, Option<U32>>, prev: map<NodeId, Option<NodeId>>)
    requires Finished(G, 1, dist, prev)
    ensures var k := |Ids(G.nodes)|;
      && Halts(prev, 4, k) && Ancestors(prev, 4, k) == Success([1, 7, 8, 5])
      && Halts(prev, 3, k) && Ancestors(prev, 3, k) == Success([1, 2])
      && Halts(prev, 6, k) && Ancestors(prev, 6, k) == Success([1])
      && Halts(prev, 9, k) && Ancestors(prev, 9, k) == Success([1, 7])
  {
    ExampleChains();
    ExampleAncestor(dist, prev, [1, 7, 8, 5, 4]);
    assert [1, 7, 8, 5, 4][..4] == [1, 7, 8, 5];
    ExampleAncestor(dist, prev, [1, 2, 3]);
    assert [1, 2, 3][..2] == [1, 2];
    ExampleAncestor(dist, prev, [1, 6]);
    assert [1, 6][..1] == [1];
    ExampleAncestor(dist, prev, [1, 7, 9]);
    assert [1, 7, 9][..2] == [1, 7];
  }

  /** The expected distances are nine. */
  lemma ExampleDistanceCount()
    ensures |Distances| == 9
  {
    assert Distances.Keys == {1, 2, 3, 4, 5, 6, 7, 8, 9};
  }

  /** Node 1 is at 0 and the others as the test expects. */
  lemma ExampleDistanceValues()
    ensures Distances[1] == Some(0) && Distances[2] == Some(2) && Distances[3] == Some(6)
    ensures Distances[4] == Some(7) && Distances[5] == Some(6) && Distances[6] == Some(7)
    ensures Distances[7] == Some(3) && Distances[8] == Some(4) && Distances[9] == Some(6)
  {
  }

  /** A shortest distance on the example is at most 7, so adding an
      edge's weight to it stays far below `u32::MAX`. */
  lemma ExampleNoOverflow(e: Edge, x: NodeId, d: int)
    requires e in G.edges && 1 <= x <= 9 && ShortestDistance(G, 1, x, d)
    ensures e.weight + d <= 15
  {
    ExampleEdge(e);
    ExampleWalkTo(x);
    var vs: seq<int>, ls :| Walks.IsWalk(Links(G), vs, ls) && vs[0] == 1 && vs[|vs| - 1] == x && Walks.Weight(ls) == ExpectedDistance(x);
    assert d <= Walks.Weight(ls);
  }

  /** No run from node 1 on the example can panic: every edge joins two of
      its nodes, and no shortest distance is near `u32::MAX`. */
  lemma ExampleNoPanic()
    ensures forall err :: !Panicked(G, 1, err)
  {
    ExampleIds();
    forall err ensures !Panicked(G, 1, err) {
      match err
      case MissingKey(id) =>
        forall e, x | e in G.edges && x in Ids(G.nodes) && e.Contains(x) ensures e.GetNeighbourNodeId(x) in Ids(G.nodes) {
          ExampleEdge(e);
        }
      case AddOverflow(w, d) =>
        forall x | x in Ids(G.nodes) && ShortestDistance(G, 1, x, d) ensures !OverflowAt(G, x, err) {
          forall e | e in G.edges && e.Contains(x) ensures e.weight + d <= U32_MAX {
            ExampleNoOverflow(e, x, d);
          }
        }
    }
  }

  /** After a finished run from node 1 on the example, the routes
      `get_path` builds from the predecessors, an empty deque and the
      target are the test's routes to nodes 4, 3, 6 and 9. */
  lemma ExampleRoutes(dist: map<NodeId, Option<U32>>, prev: map<NodeId, Option<NodeId>>)
    requires Finished(G, 1, dist, prev)
    ensures var k := |Ids(G.nodes)|;
      && Halts(prev, 4, k) && Ancestors(prev, 4, k).Success? && Ancestors(prev, 4, k).value + [] + [4] == [1, 7, 8, 5, 4]
      && Halts(prev, 3, k) && Ancestors(prev, 3, k).Success? && Ancestors(prev, 3, k).value + [] + [3] == [1, 2, 3]
      && Halts(prev, 6, k) && Ancestors(prev, 6, k).Success? && Ancestors(prev, 6, k).value + [] + [6] == [1, 6]
      && Halts(prev, 9, k) && Ancestors(prev, 9, k).Success? && Ancestors(prev, 9, k).value + [] + [9] == [1, 7, 9]
  {
    ExampleAncestors(dist, prev);
  }

  /** The Rust test (rust/src/main.rs): the run of `dijkstra` as written
      from node 1 completes with nine distances, node 1 at 0 and the others
      at those expected, and `get_path` returns the routes 1-7-8-5-4, 1-2-3,
      1-6 and 1-7-9. */
  method ExampleRun() returns (result: ResultSet, path4: Result<seq<NodeId>, Panic>, path3: Result<seq<NodeId>, Panic>,
                               path6: Result<seq<NodeId>, Panic>, path9: Result<seq<NodeId>, Panic>)
    ensures |result.distances| == 9
    ensures result.GetDistance(1) == Success(0) && result.GetDistance(2) == Success(2)
    ensures result.GetDistance(3) == Success(6) && result.GetDistance(4) == Success(7)
    ensures result.GetDistance(5) == Success(6) && result.GetDistance(6) == Success(7)
    ensures result.GetDistance(7) == Success(3) && result.GetDistance(8) == Success(4)
    ensures result.GetDistance(9) == Success(6)
    ensures path4 == Success([1, 7, 8, 5, 4]) && path3 == Success([1, 2, 3])
    ensures path6 == Success([1, 6]) && path9 == Success([1, 7, 9])
  {
    ExampleNoPanic();
    var res := Dijkstra(G, Node(1));
    result := res.value;
    ExampleDistances(result.distances, result.prev);
    ExampleDistanceCount();
    ExampleDistanceValues();
    ExampleRoutes(result.distances, result.prev);
    var k := |Ids(G.nodes)|;
    path4 := result.GetPath(4, [], k);
    path3 := result.GetPath(3, [], k);
    path6 := result.GetPath(6, [], k);
    path9 := result.GetPath(9, [], k);
  }

  /** The same run on the saturating `dijkstra`: it completes too, with the
      same distances and predecessors. */
  method ExampleRunSaturating() returns (res: Result<ResultSet, Panic>)
    ensures res.Success? && res.value.distances == Distances && res.value.prev == Prev
  {
    ExampleNoPanic();
    res := DijkstraSaturating(G, Node(1));
    ExampleDistances(res.value.distances, res.value.prev);
    ExamplePrevs(res.value.distances, res.value.prev);
  }
}
