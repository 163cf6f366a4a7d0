/** The nine-node example graph of `createExampleInstance`, and what any
    completed run of `dijkstra` from node 1 returns on it: the distances
    and routes the Kotlin tests expect. */
module KotlinExample {
  import opened Wrappers
  import opened KotlinData
  import opened KotlinGraph
  import opened KotlinDijkstra
  import opened KotlinShortest
  import opened ExampleTable
  import Walks

  /** Nodes 1 to 9 and the fifteen weighted edges between them. */
  const G: Graph :=
    Graph([Node(1), Node(2), Node(3), Node(4), Node(5), Node(6), Node(7), Node(8), Node(9)],
          [Edge((Node(1), Node(2)), 2), Edge((Node(1), Node(6)), 7), Edge((Node(1), Node(7)), 3),
           Edge((Node(2), Node(3)), 4), Edge((Node(2), Node(7)), 6), Edge((Node(3), Node(4)), 2),
           Edge((Node(3), Node(9)), 2), Edge((Node(4), Node(5)), 1), Edge((Node(4), Node(9)), 8),
           Edge((Node(5), Node(6)), 6), Edge((Node(5), Node(8)), 2), Edge((Node(6), Node(8)), 5),
           Edge((Node(7), Node(8)), 1), Edge((Node(7), Node(9)), 3), Edge((Node(8), Node(9)), 4)])

  /** What the example offers a run from node 1: the nodes it can meet are
      nodes 1 to 9; no edge lets an expected distance undercut another; an
      edge along which the expected distance rises by exactly its weight is
      a parent link; and every node has a walk from node 1 as heavy as its
      expected distance. */
  ghost predicate Shaped(g: Graph) {
    IdsWithin(g) && Walks.Closed(Links(g), Expected) && ParentLinks(g) && WalksFromOne(g)
  }

  /** A run from node 1 meets only nodes 1 to 9. */
  ghost predicate IdsWithin(g: Graph) {
    forall v :: v in Universe(g, Node(1)) ==> 1 <= v.id <= 9
  }

  /** Every node has a walk from node 1 as heavy as its expected distance. */
  ghost predicate WalksFromOne(g: Graph) {
    forall i :: 1 <= i <= 9 ==> WalkFromOne(g, i, ExpectedDistance(i))
  }

  /** An edge along which the expected distance rises by exactly its weight
      is a parent link. */
  ghost predicate ParentLinks(g: Graph) {
    forall e, p, v ::
      (e in g.edges && Walks.Joins(e.ToLink(), p, v) && 1 <= p <= 9 && 2 <= v <= 9 &&
       ExpectedDistance(v) == ExpectedDistance(p) + e.weight) ==> Parent(v) == p
  }

  /** Some walk from node 1 to node `i` weighs `d`. */
  ghost predicate WalkFromOne(g: Graph, i: int, d: int) {
    exists vs, ls :: Walks.IsWalk(Links(g), vs, ls) && vs[0] == 1 && vs[|vs| - 1] == i && Walks.Weight(ls) == d
  }

  /** Edges whose endpoints all lie in `lo..hi` have their endpoints there. */
  lemma {:induction false} EndpointsWithin(edges: seq<Edge>, lo: int, hi: int)
    requires forall e :: e in edges ==> lo <= e.nodesPair.0.id <= hi && lo <= e.nodesPair.1.id <= hi
    ensures forall v :: v in Endpoints(edges) ==> lo <= v.id <= hi
  {
    if edges != [] {
      var n := |edges|;
      assert forall e :: e in edges[..n - 1] ==> e in edges;
      EndpointsWithin(edges[..n - 1], lo, hi);
      assert edges[n - 1] in edges;
    }
  }

  /** A graph whose nodes and edge endpoints have ids in `lo..hi` offers a
      run from such a start only nodes with ids there. */
  lemma UniverseWithin(g: Graph, start: Node, lo: int, hi: int)
    requires lo <= start.id <= hi
    requires forall v :: v in g.nodes ==> lo <= v.id <= hi
    requires forall e :: e in g.edges ==> lo <= e.nodesPair.0.id <= hi && lo <= e.nodesPair.1.id <= hi
    ensures forall v :: v in Universe(g, start) ==> lo <= v.id <= hi
  {
    EndpointsWithin(g.edges, lo, hi);
  }

  /** The nodes a run on the example can meet are nodes 1 to 9. */
  lemma ExampleUniverse()
    ensures forall v :: v in Universe(G, Node(1)) ==> 1 <= v.id <= 9
  {
    forall e | e in G.edges ensures 1 <= e.nodesPair.0.id <= 9 && 1 <= e.nodesPair.1.id <= 9 {
      ExampleEdge(e);
    }
    UniverseWithin(G, Node(1), 1, 9);
  }

  /** Each edge of the example joins two nodes whose expected distances
      differ by at most its weight; when they differ by exactly the weight,
      the nearer node is the farther one's parent. */
  lemma ExampleEdge(e: Edge)
    requires e in G.edges
    ensures var a, b := e.nodesPair.0.id, e.nodesPair.1.id;
      && 1 <= a <= 9 && 1 <= b <= 9
      && ExpectedDistance(a) <= ExpectedDistance(b) + e.weight && ExpectedDistance(b) <= ExpectedDistance(a) + e.weight
      && (b != 1 && ExpectedDistance(b) == ExpectedDistance(a) + e.weight ==> Parent(b) == a)
      && (a != 1 && ExpectedDistance(a) == ExpectedDistance(b) + e.weight ==> Parent(a) == b)
  {
  }

  /** A walk from node 1 as heavy as the expected distance of its end,
      extended by an edge along which the expected distance rises by exactly
      the edge's weight, is such a walk to the edge's far end. */
  lemma ExampleStep(i: int, j: int, k: int)
    requires 1 <= i <= 9 && 1 <= j <= 9 && 0 <= k < |G.edges|
    requires WalkFromOne(G, i, ExpectedDistance(i))
    requires Walks.Joins(G.edges[k].ToLink(), i, j) && ExpectedDistance(j) == ExpectedDistance(i) + G.edges[k].weight
    ensures WalkFromOne(G, j, ExpectedDistance(j))
  {
    var vs, ls :| Walks.IsWalk(Links(G), vs, ls) && vs[0] == 1 && vs[|vs| - 1] == i && Walks.Weight(ls) == ExpectedDistance(i);
    var l := G.edges[k].ToLink();
    assert G.edges[k] in G.edges;
    assert l in Links(G);
    Walks.WalkSnoc(Links(G), vs, ls, l, j);
    assert (vs + [j])[0] == 1;
  }

  /** The index in `G.edges` of the edge from node `i`'s parent to it. */
  function ParentEdge(i: int): (k: int)
    requires 2 <= i <= 9
    ensures 0 <= k < |G.edges|
  {
    if i == 2 then 0 else if i == 3 then 3 else if i == 4 then 7 else if i == 5 then 10
    else if i == 6 then 1 else if i == 7 then 2 else if i == 8 then 12 else 13
  }

  /** Every node of the example has a walk from node 1 as heavy as its
      expected distance, along the parent links. */
  lemma {:induction false} ExampleWalkTo(i: int)
    requires 1 <= i <= 9
    ensures WalkFromOne(G, i, ExpectedDistance(i))
    decreases ExpectedDistance(i)
  {
    if i == 1 {
      assert Walks.IsWalk(Links(G), [1], []);
    } else {
      ExampleWalkTo(Parent(i));
      ExampleStep(Parent(i), i, ParentEdge(i));
    }
  }

  /** The example graph has the shape a run from node 1 relies on. */
  lemma ExampleShaped()
    ensures Shaped(G)
  {
    ExampleUniverse();
    forall l, x, y | l in Links(G) && Walks.Joins(l, x, y) && x in Expected
      ensures y in Expected && Expected[y] <= Expected[x] + l.w
    {
      var e :| e in G.edges && e.ToLink() == l;
      ExampleEdge(e);
    }
    forall e, p, v |
        e in G.edges && Walks.Joins(e.ToLink(), p, v) && 1 <= p <= 9 && 2 <= v <= 9 &&
        ExpectedDistance(v) == ExpectedDistance(p) + e.weight
      ensures Parent(v) == p
    {
      ExampleEdge(e);
    }
    forall i | 1 <= i <= 9 ensures WalkFromOne(G, i, ExpectedDistance(i)) {
      ExampleWalkTo(i);
    }
  }

  /** On a graph of that shape, a node is reported at no less than its
      expected distance. */
  lemma ShapedLower(g: Graph, r: DijkstraResult, t: Node)
    requires Walks.Closed(Links(g), Expected) && Finished(g, r) && r.source == Node(1)
    requires t.id in Expected && (t == r.source || (t in r.distances && r.distances[t] < INT_MAX))
    ensures Expected[t.id] <= Reported(r, t)
  {
    DistanceIsShortest(g, r, t);
    var route := Route(r.precursors, t, |Universe(g, r.source)|);
    var ls :| Walks.IsWalk(Links(g), Ids(route), ls) && Walks.Weight(ls) == Reported(r, t);
    Walks.WalkBound(Links(g), Expected, Ids(route), ls);
  }

  /** On a graph of that shape, a run from node 1 labels every node 1 to 9
      with its expected distance. */
  lemma ExpectedReached(g: Graph, r: DijkstraResult)
    requires Walks.Closed(Links(g), Expected) && WalksFromOne(g) && Finished(g, r) && r.source == Node(1)
    ensures forall i :: 1 <= i <= 9 ==> i in Reached(r) && Reached(r)[i] == ExpectedDistance(i)
  {
    forall i | 1 <= i <= 9 ensures i in Reached(r) && Reached(r)[i] == ExpectedDistance(i) {
      assert WalkFromOne(g, i, ExpectedDistance(i));
      var vs, ls :| Walks.IsWalk(Links(g), vs, ls) && vs[0] == 1 && vs[|vs| - 1] == i && Walks.Weight(ls) == ExpectedDistance(i);
      NoLighterWalk(g, r, vs, ls);
      ReachedReported(r, Node(i));
      ShapedLower(g, r, Node(i));
    }
  }

  /** On a graph whose run from node 1 meets only nodes 1 to 9, only those
      are labelled. */
  lemma ReachedWithin(g: Graph, r: DijkstraResult)
    requires IdsWithin(g) && Finished(g, r) && r.source == Node(1)
    ensures forall i :: i in Reached(r) ==> 1 <= i <= 9
  {
    forall i | i in Reached(r) ensures 1 <= i <= 9 {
      ReachedReported(r, Node(i));
      assert Node(i) in Universe(g, r.source);
    }
  }

  /** On a graph of that shape, a run from node 1 labels every node with
      its expected distance and nothing else. */
  lemma ShapedReached(g: Graph, r: DijkstraResult)
    requires IdsWithin(g) && Walks.Closed(Links(g), Expected) && WalksFromOne(g)
    requires Finished(g, r) && r.source == Node(1)
    ensures Reached(r) == Expected
  {
    ExpectedReached(g, r);
    ReachedWithin(g, r);
    assert forall i :: i in Reached(r) <==> i in Expected;
  }


  /** The route from node 1 to node `i` the tests expect: node 1 alone for
      node 1, and otherwise the route to the parent followed by `i`. */
  function ExpectedRoute(i: int): (c: seq<Node>)
    requires 1 <= i <= 9
    ensures |c| >= 1 && c[0] == Node(1) && c[|c| - 1] == Node(i)
    decreases ExpectedDistance(i)
  {
    if i == 1 then [Node(1)] else ExpectedRoute(Parent(i)) + [Node(i)]
  }

  /** The expected routes of at most one link, spelled out. */
  lemma OneLinkRoutes()
    ensures ExpectedRoute(1) == [Node(1)]
    ensures ExpectedRoute(2) == [Node(1), Node(2)]
    ensures ExpectedRoute(6) == [Node(1), Node(6)]
    ensures ExpectedRoute(7) == [Node(1), Node(7)]
  {
  }

  /** The expected routes of two links, spelled out. */
  lemma TwoLinkRoutes()
    ensures ExpectedRoute(3) == [Node(1), Node(2), Node(3)]
    ensures ExpectedRoute(8) == [Node(1), Node(7), Node(8)]
    ensures ExpectedRoute(9) == [Node(1), Node(7), Node(9)]
  {
    OneLinkRoutes();
    assert ExpectedRoute(3) == ExpectedRoute(2) + [Node(3)];
    assert ExpectedRoute(8) == ExpectedRoute(7) + [Node(8)];
    assert ExpectedRoute(9) == ExpectedRoute(7) + [Node(9)];
  }

  /** The expected routes to nodes 5 and 4, spelled out. */
  lemma LongRoutes()
    ensures ExpectedRoute(5) == [Node(1), Node(7), Node(8), Node(5)]
    ensures ExpectedRoute(4) == [Node(1), Node(7), Node(8), Node(5), Node(4)]
  {
    TwoLinkRoutes();
    assert ExpectedRoute(5) == ExpectedRoute(8) + [Node(5)];
    assert ExpectedRoute(4) == ExpectedRoute(5) + [Node(4)];
  }

  /** On a graph of that shape, the precursor a run from node 1 records for
      every node but the start is its parent. */
  lemma ShapedPrecursor(g: Graph, r: DijkstraResult, i: int)
    requires ParentLinks(g) && Finished(g, r) && r.source == Node(1) && Reached(r) == Expected
    requires 2 <= i <= 9
    ensures Precursor(r.precursors, Node(i)) == Some(Node(Parent(i)))
  {
    var t := Node(i);
    assert i in Reached(r);
    ReachedReported(r, t);
    assert t in r.precursors && r.precursors[t].Some?;
    var p := r.precursors[t].value;
    assert TightLink(g, r, p, t);
    var e :| e in g.edges && Walks.Joins(e.ToLink(), p.id, i) && Reached(r)[i] == Reached(r)[p.id] + e.weight;
    assert p.id in Expected && Expected[i] == Expected[p.id] + e.weight;
    assert Parent(i) == p.id;
  }

  /** A precursor chain extended by a node whose precursor is the chain's
      last node is again a precursor chain. */
  lemma ChainSnoc(precursors: map<Node, Option<Node>>, c: seq<Node>, t: Node)
    requires PrecursorChain(precursors, c)
    requires Precursor(precursors, t) == Some(c[|c| - 1]) && c[|c| - 1] != t
    ensures PrecursorChain(precursors, c + [t])
  {
    var c2 := c + [t];
    forall k | 0 <= k < |c2| - 1
      ensures Precursor(precursors, c2[k + 1]) == Some(c2[k]) && c2[k] != c2[k + 1]
    {
      if k < |c| - 1 {
        assert c2[k] == c[k] && c2[k + 1] == c[k + 1];
      }
    }
  }

  /** On a graph of that shape, the expected route to every node is a
      precursor chain of a run from node 1. */
  lemma {:induction false} ShapedChain(g: Graph, r: DijkstraResult, i: int)
    requires ParentLinks(g) && Finished(g, r) && r.source == Node(1) && Reached(r) == Expected
    requires 1 <= i <= 9
    ensures PrecursorChain(r.precursors, ExpectedRoute(i))
    decreases ExpectedDistance(i)
  {
    if i == 1 {
      assert Precursor(r.precursors, Node(1)) == None;
    } else {
      var p := Parent(i);
      ParentNearer(i);
      ShapedChain(g, r, p);
      ShapedPrecursor(g, r, i);
      ChainSnoc(r.precursors, ExpectedRoute(p), Node(i));
    }
  }

  /** On a graph of that shape, the backward walk of a run from node 1
      returns from every node, along the expected route. */
  lemma ShapedRoute(g: Graph, r: DijkstraResult, i: int)
    requires ParentLinks(g) && Finished(g, r) && r.source == Node(1) && Reached(r) == Expected
    requires 1 <= i <= 9
    ensures Halts(r.precursors, Node(i), |Universe(g, r.source)|)
    ensures Route(r.precursors, Node(i), |Universe(g, r.source)|) == ExpectedRoute(i)
  {
    ReachedReported(r, Node(i));
    DistanceIsShortest(g, r, Node(i));
    ShapedChain(g, r, i);
    ChainIsRoute(r.precursors, ExpectedRoute(i), |Universe(g, r.source)|);
  }

  /** On a graph whose run from node 1 meets only nodes 1 to 9, the run
      reports distances for nodes 2 to 9 only. */
  lemma ReportedWithin(g: Graph, r: DijkstraResult)
    requires IdsWithin(g) && Finished(g, r) && r.source == Node(1)
    ensures forall v :: v in r.distances ==> 2 <= v.id <= 9
  {
    forall v | v in r.distances ensures 2 <= v.id <= 9 {
      assert v in Universe(g, r.source);
      assert v != Node(1);
    }
  }

  /** A run from node 1 that labels every node with its expected distance
      reports nodes 2 to 9 at those distances. */
  lemma ExpectedReported(r: DijkstraResult)
    requires r.source == Node(1) && Reached(r) == Expected
    ensures forall i :: 2 <= i <= 9 ==> Node(i) in r.distances && r.distances[Node(i)] == ExpectedDistance(i)
  {
    forall i | 2 <= i <= 9 ensures Node(i) in r.distances && r.distances[Node(i)] == ExpectedDistance(i) {
      assert i in Expected && Reached(r)[i] == ExpectedDistance(i);
      ReachedReported(r, Node(i));
    }
  }

  /** On a graph of that shape, a run from node 1 reports exactly nodes 2
      to 9, each at its expected distance. */
  lemma ShapedDistances(g: Graph, r: DijkstraResult)
    requires IdsWithin(g) && Finished(g, r) && r.source == Node(1) && Reached(r) == Expected
    ensures forall v :: v in r.distances <==> 2 <= v.id <= 9
    ensures forall i :: 2 <= i <= 9 ==> r.distances[Node(i)] == ExpectedDistance(i)
  {
    ExpectedReported(r);
    ReportedWithin(g, r);
    forall v: Node | 2 <= v.id <= 9 ensures v in r.distances {
      assert v == Node(v.id);
    }
  }


  /** A map holding exactly nodes 2 to 9, at their expected distances, is
      the map of the eight distances the tests expect. */
  lemma ExpectedMap(d: map<Node, int>)
    requires forall v :: v in d <==> 2 <= v.id <= 9
    requires forall i :: 2 <= i <= 9 ==> d[Node(i)] == ExpectedDistance(i)
    ensures d == map[Node(2) := 2, Node(3) := 6, Node(4) := 7, Node(5) := 6,
                     Node(6) := 7, Node(7) := 3, Node(8) := 4, Node(9) := 6]
  {
    var m := map[Node(2) := 2, Node(3) := 6, Node(4) := 7, Node(5) := 6,
                 Node(6) := 7, Node(7) := 3, Node(8) := 4, Node(9) := 6];
    forall v ensures v in d <==> v in m {
      assert v == Node(v.id);
    }
    forall v | v in d ensures d[v] == m[v] {
      assert v == Node(v.id);
    }
  }

  /** What the Kotlin tests expect of `dijkstra` from node 1 on the example:
      eight distances, one per node but the start. */
  lemma ExampleDistances(r: DijkstraResult)
    requires Finished(G, r) && r.source == Node(1)
    ensures r.distances == map[Node(2) := 2, Node(3) := 6, Node(4) := 7, Node(5) := 6,
                               Node(6) := 7, Node(7) := 3, Node(8) := 4, Node(9) := 6]
  {
    ExampleShaped();
    ShapedReached(G, r);
    ShapedDistances(G, r);
    ExpectedMap(r.distances);
  }

  /** The example meets the preconditions of `Dijkstra`: no weight is
      negative, and at most 40 nodes times a largest weight of 8 stays far
      below `Int.MAX_VALUE`. */
  lemma ExampleWeights()
    ensures forall e :: e in G.edges ==> 0 <= e.weight
    ensures |Universe(G, Node(1))| * MaxWeight(G.edges) < INT_MAX
  {
    UniverseSize(G, Node(1));
    forall e | e in G.edges ensures 0 <= e.weight <= 8 {
      ExampleEdge(e);
    }
    MaxWeightAtMost(G.edges, 8);
    ProductAtMost(|Universe(G, Node(1))|, MaxWeight(G.edges), 40, 8);
  }

  /** Bounded factors give a bounded product. */
  lemma ProductAtMost(n: int, m: int, a: int, b: int)
    requires 0 <= n <= a && 0 <= m <= b
    ensures n * m <= a * b
  {
    assert n * m <= a * m;
  }

  /** The run the Kotlin distance test makes: `dijkstra` from node 1 on the
      example, returning the eight expected distances. */
  method ExampleRun() returns (r: DijkstraResult)
    ensures r.source == Node(1) && Finished(G, r)
    ensures r.distances == map[Node(2) := 2, Node(3) := 6, Node(4) := 7, Node(5) := 6,
                               Node(6) := 7, Node(7) := 3, Node(8) := 4, Node(9) := 6]
  {
    ExampleWeights();
    r := Dijkstra(G, Node(1));
    ExampleDistances(r);
  }

  /** What the Kotlin tests expect of `reconstructFullPathFromPreviousNode`
      after that run: the route to each node, node 1 alone for node 1. */
  lemma ExampleRoutes(r: DijkstraResult)
    requires Finished(G, r) && r.source == Node(1)
    ensures var k := |Universe(G, Node(1))|;
      && Halts(r.precursors, Node(1), k) && Route(r.precursors, Node(1), k) == [Node(1)]
      && Halts(r.precursors, Node(2), k) && Route(r.precursors, Node(2), k) == [Node(1), Node(2)]
      && Halts(r.precursors, Node(3), k) && Route(r.precursors, Node(3), k) == [Node(1), Node(2), Node(3)]
      && Halts(r.precursors, Node(4), k) && Route(r.precursors, Node(4), k) == [Node(1), Node(7), Node(8), Node(5), Node(4)]
      && Halts(r.precursors, Node(5), k) && Route(r.precursors, Node(5), k) == [Node(1), Node(7), Node(8), Node(5)]
      && Halts(r.precursors, Node(6), k) && Route(r.precursors, Node(6), k) == [Node(1), Node(6)]
      && Halts(r.precursors, Node(7), k) && Route(r.precursors, Node(7), k) == [Node(1), Node(7)]
      && Halts(r.precursors, Node(8), k) && Route(r.precursors, Node(8), k) == [Node(1), Node(7), Node(8)]
      && Halts(r.precursors, Node(9), k) && Route(r.precursors, Node(9), k) == [Node(1), Node(7), Node(9)]
  {
    ExampleShaped();
    ShapedReached(G, r);
    ShapedRoute(G, r, 1);
    ShapedRoute(G, r, 2);
    ShapedRoute(G, r, 3);
    ShapedRoute(G, r, 4);
    ShapedRoute(G, r, 5);
    ShapedRoute(G, r, 6);
    ShapedRoute(G, r, 7);
    ShapedRoute(G, r, 8);
    ShapedRoute(G, r, 9);
    OneLinkRoutes();
    TwoLinkRoutes();
    LongRoutes();
  }
}
