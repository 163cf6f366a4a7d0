/** What a completed run of the Rust `dijkstra` means for shortest paths:
    no walk from the start is lighter than a recorded distance, and every
    distance below `u32::MAX` is the weight of the route `get_path` returns. */
module RustShortest {
  import opened Wrappers
  import opened RustModel
  import opened RustMain
  import Walks

  /** The recorded distances of the graph's ids, as a labelling of walk vertices. */
  ghost function Potential(ids: set<NodeId>, dist: map<NodeId, Option<U32>>): map<int, int> {
    map n: int | n in ids :: DistanceOf(dist, n)
  }

  /** Once every edge is relaxed, no link lets one id undercut another. */
  lemma FinishedClosed(g: Graph, s: NodeId, dist: map<NodeId, Option<U32>>, prev: map<NodeId, Option<NodeId>>)
    requires Finished(g, s, dist, prev) && s in Ids(g.nodes)
    ensures Walks.Closed(Links(g), Potential(Ids(g.nodes), dist))
  {
    var pot := Potential(Ids(g.nodes), dist);
    forall l, x, y | l in Links(g) && Walks.Joins(l, x, y) && x in pot
      ensures y in pot && pot[y] <= pot[x] + l.w
    {
      var e :| e in g.edges && e.ToLink() == l;
      NeighbourJoins(e, x, y);
      assert RelaxedEdge(dist, x, e);
    }
  }

  /** The lower bound: every walk from the start ends at an id of the graph
      whose recorded distance is at most the walk's weight. An id left at
      `u32::MAX` is therefore reachable only by walks at least that heavy. */
  lemma NoLighterWalk(g: Graph, s: NodeId, dist: map<NodeId, Option<U32>>, prev: map<NodeId, Option<NodeId>>,
                      vs: seq<int>, ls: seq<Walks.Link>)
    requires Finished(g, s, dist, prev) && s in Ids(g.nodes)
    requires Walks.IsWalk(Links(g), vs, ls) && vs[0] == s
    ensures vs[|vs| - 1] in Ids(g.nodes)
    ensures DistanceOf(dist, vs[|vs| - 1]) <= Walks.Weight(ls)
  {
    FinishedClosed(g, s, dist, prev);
    Walks.WalkBound(Links(g), Potential(Ids(g.nodes), dist), vs, ls);
  }

  /** Dropping the last node of a predecessor chain leaves one. */
  lemma ChainPrefix(prev: map<NodeId, Option<NodeId>>, c: seq<NodeId>)
    requires PrevChain(prev, c) && |c| >= 2
    ensures PrevChain(prev, c[..|c| - 1])
  {
  }

  /** The upper bound: a predecessor chain ending at the start, or at a
      distance below `u32::MAX`, begins at the start and is a walk whose
      weight is that distance. */
  lemma {:induction false} ChainWalk(g: Graph, s: NodeId, dist: map<NodeId, Option<U32>>, prev: map<NodeId, Option<NodeId>>,
                                     c: seq<NodeId>)
    requires Finished(g, s, dist, prev)
    requires PrevChain(prev, c)
    requires c[|c| - 1] == s || DistanceOf(dist, c[|c| - 1]) < U32_MAX
    ensures c[0] == s
    ensures exists ls :: Walks.IsWalk(Links(g), c, ls) && Walks.Weight(ls) == DistanceOf(dist, c[|c| - 1])
    decreases |c|
  {
    var n := |c|;
    var t := c[n - 1];
    if n == 1 {
      assert prev[t] == None;
      assert Walks.IsWalk(Links(g), c, []);
    } else {
      var p := c[n - 2];
      assert prev[t] == Some(p);
      var e :| e in g.edges && Walks.Joins(e.ToLink(), p, t) && DistanceOf(dist, t) == DistanceOf(dist, p) + e.weight;
      var c' := c[..n - 1];
      ChainPrefix(prev, c);
      ChainWalk(g, s, dist, prev, c');
      var ls :| Walks.IsWalk(Links(g), c', ls) && Walks.Weight(ls) == DistanceOf(dist, p);
      Walks.WalkSnoc(Links(g), c', ls, e.ToLink(), t);
      assert c' + [t] == c;
    }
  }

  /** Shortest paths: for an id of the graph whose distance is below
      `u32::MAX`, the backward walk succeeds, the route it yields (the one
      `get_path` returns) runs from the start to the id with weight equal to
      the distance, and no walk from the start to the id is lighter. */
  lemma RouteIsShortest(g: Graph, s: NodeId, dist: map<NodeId, Option<U32>>, prev: map<NodeId, Option<NodeId>>, t: NodeId)
    requires Finished(g, s, dist, prev) && s in Ids(g.nodes) && t in Ids(g.nodes)
    requires DistanceOf(dist, t) < U32_MAX
    ensures Halts(prev, t, |Ids(g.nodes)|) && Ancestors(prev, t, |Ids(g.nodes)|).Success?
    ensures var route := Ancestors(prev, t, |Ids(g.nodes)|).value + [t];
      && route[0] == s
      && exists ls :: Walks.IsWalk(Links(g), route, ls) && Walks.Weight(ls) == DistanceOf(dist, t)
    ensures forall vs, ls :: Walks.IsWalk(Links(g), vs, ls) && vs[0] == s && vs[|vs| - 1] == t ==>
      DistanceOf(dist, t) <= Walks.Weight(ls)
  {
    var k := |Ids(g.nodes)|;
    RootedHalts(prev, t, k);
    AncestorsAreChain(prev, t, k);
    ChainWalk(g, s, dist, prev, Ancestors(prev, t, k).value + [t]);
    forall vs, ls | Walks.IsWalk(Links(g), vs, ls) && vs[0] == s && vs[|vs| - 1] == t
      ensures DistanceOf(dist, t) <= Walks.Weight(ls)
    {
      NoLighterWalk(g, s, dist, prev, vs, ls);
    }
  }
}
