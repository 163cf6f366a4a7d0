/** What a completed run of the Kotlin `dijkstra` means for shortest paths:
    no walk from the start is lighter than a reported distance, a node left
    at `Int.MAX_VALUE` cannot be reached at all, and for every other node
    `reconstructFullPathFromPreviousNode` returns a route from the start
    whose weight is the reported distance. */
module KotlinShortest {
  import opened Wrappers
  import opened KotlinData
  import opened KotlinGraph
  import opened KotlinDijkstra
  import Walks

  /** The distance a run reports for `t`: 0 for the start, which is left
      out of `distances`, and the entry of `distances` otherwise. */
  function Reported(r: DijkstraResult, t: Node): int
    requires t == r.source || t in r.distances
  {
    if t == r.source then 0 else r.distances[t]
  }

  /** The ids of a sequence of nodes, as the vertices of a walk. */
  function Ids(c: seq<Node>): (vs: seq<int>)
    ensures |vs| == |c| && forall i :: 0 <= i < |c| ==> vs[i] == c[i].id
  {
    seq(|c|, i requires 0 <= i < |c| => c[i].id)
  }

  /** Every precursor link a run records is tight. */
  ghost predicate TightPrecursors(g: Graph, r: DijkstraResult) {
    forall v {:trigger r.precursors[v]} :: v in r.precursors && r.precursors[v].Some? ==> TightLink(g, r, r.precursors[v].value, v)
  }

  /** Every node reported below `Int.MAX_VALUE` has a precursor. */
  ghost predicate LabelledHavePrecursors(r: DijkstraResult) {
    forall v :: v in r.distances && r.distances[v] < INT_MAX ==> Precursor(r.precursors, v).Some?
  }

  /** A finished run has both. */
  lemma FinishedPrecursors(g: Graph, r: DijkstraResult)
    requires Finished(g, r)
    ensures TightPrecursors(g, r) && LabelledHavePrecursors(r)
  {
  }

  /** The ids a run labels are those of the start and of the
      nodes reported below `Int.MAX_VALUE`, labelled with their reported
      distance. */
  lemma ReachedReported(r: DijkstraResult, t: Node)
    ensures t.id in Reached(r) <==> t == r.source || (t in r.distances && r.distances[t] < INT_MAX)
    ensures t.id in Reached(r) ==> Reached(r)[t.id] == Reported(r, t)
  {
    if t != r.source && t in r.distances {
      var ids := set v | v in r.distances :: v.id;
      assert t.id in ids;
    }
  }

  /** The lower bound: every walk from the start ends at an id the run
      labelled, at most the walk's weight away. */
  lemma NoLighterWalk(g: Graph, r: DijkstraResult, vs: seq<int>, ls: seq<Walks.Link>)
    requires Finished(g, r)
    requires Walks.IsWalk(Links(g), vs, ls) && vs[0] == r.source.id
    ensures vs[|vs| - 1] in Reached(r) && Reached(r)[vs[|vs| - 1]] <= Walks.Weight(ls)
  {
    assert r.source.id in Reached(r) && Reached(r)[r.source.id] == 0;
    Walks.WalkBound(Links(g), Reached(r), vs, ls);
  }

  /** A node `dijkstra` leaves at `Int.MAX_VALUE` is reached by no walk
      from the start. */
  lemma UnreachedIsUnreachable(g: Graph, r: DijkstraResult, t: Node)
    requires Finished(g, r)
    requires t in r.distances && r.distances[t] == INT_MAX
    ensures !Walks.Reachable(Links(g), r.source.id, t.id)
  {
    ReachedReported(r, t);
    if Walks.Reachable(Links(g), r.source.id, t.id) {
      var vs, ls :| Walks.IsWalk(Links(g), vs, ls) && vs[0] == r.source.id && vs[|vs| - 1] == t.id;
      NoLighterWalk(g, r, vs, ls);
      assert false;
    }
  }

  /** The upper bound: a precursor chain ending at a labelled node begins
      at the start and is a walk whose weight is the node's label. */
  lemma {:induction false} ChainWalk(g: Graph, r: DijkstraResult, c: seq<Node>)
    requires TightPrecursors(g, r) && LabelledHavePrecursors(r)
    requires PrecursorChain(r.precursors, c) && c[|c| - 1].id in Reached(r)
    ensures c[0] == r.source
    ensures exists ls :: Walks.IsWalk(Links(g), Ids(c), ls) && Walks.Weight(ls) == Reached(r)[c[|c| - 1].id]
    decreases |c|
  {
    var n := |c|;
    var t := c[n - 1];
    ReachedReported(r, t);
    if n == 1 {
      assert Precursor(r.precursors, t) == None;
      assert t == r.source;
      assert Walks.IsWalk(Links(g), Ids(c), []);
    } else {
      var p := c[n - 2];
      assert Precursor(r.precursors, t) == Some(p);
      assert TightLink(g, r, p, t);
      var e :| e in g.edges && Walks.Joins(e.ToLink(), p.id, t.id) && Reached(r)[t.id] == Reached(r)[p.id] + e.weight;
      var c' := c[..n - 1];
      assert PrecursorChain(r.precursors, c');
      ChainWalk(g, r, c');
      var ls :| Walks.IsWalk(Links(g), Ids(c'), ls) && Walks.Weight(ls) == Reached(r)[p.id];
      assert e.ToLink() in Links(g);
      Walks.WalkSnoc(Links(g), Ids(c'), ls, e.ToLink(), t.id);
      assert Ids(c') + [t.id] == Ids(c);
    }
  }

  /** Shortest paths: for the start, or a node reported below
      `Int.MAX_VALUE`, the backward walk returns, the route it yields (what
      `reconstructFullPathFromPreviousNode` returns) runs from the start to
      the node with weight equal to the reported distance, and no walk from
      the start to the node is lighter. */
  lemma DistanceIsShortest(g: Graph, r: DijkstraResult, t: Node)
    requires Finished(g, r)
    requires t == r.source || (t in r.distances && r.distances[t] < INT_MAX)
    ensures Halts(r.precursors, t, |Universe(g, r.source)|)
    ensures var route := Route(r.precursors, t, |Universe(g, r.source)|);
      && route[0] == r.source && route[|route| - 1] == t
      && exists ls :: Walks.IsWalk(Links(g), Ids(route), ls) && Walks.Weight(ls) == Reported(r, t)
    ensures forall vs, ls :: Walks.IsWalk(Links(g), vs, ls) && vs[0] == r.source.id && vs[|vs| - 1] == t.id ==>
      Reported(r, t) <= Walks.Weight(ls)
  {
    var k := |Universe(g, r.source)|;
    ReachedReported(r, t);
    assert Rooted(r.precursors, t, k);
    RootedRoute(r.precursors, t, k);
    FinishedPrecursors(g, r);
    ChainWalk(g, r, Route(r.precursors, t, k));
    forall vs, ls | Walks.IsWalk(Links(g), vs, ls) && vs[0] == r.source.id && vs[|vs| - 1] == t.id
      ensures Reported(r, t) <= Walks.Weight(ls)
    {
      NoLighterWalk(g, r, vs, ls);
    }
  }
}
