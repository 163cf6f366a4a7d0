/** The Kotlin `dijkstra` (kotlin/src/main/kotlin/Graph.kt): a frontier list
    of `(node, distance)` entries, scanned for its least entry each round;
    edges reaching a settled node are skipped, and every relaxation pushes
    a new entry, so stale entries are popped and discarded later. */
module KotlinDijkstra {
  import opened Wrappers
  import opened KotlinData
  import opened KotlinGraph
  import Walks

  /** `k * w`, spelled out as `k` additions of `w`. */
  function Times(k: nat, w: int): int {
    if k == 0 then 0 else Times(k - 1, w) + w
  }

  /** Repeated addition of a non-negative weight grows with the count. */
  lemma {:induction false} TimesMono(a: nat, b: nat, w: int)
    requires a <= b && 0 <= w
    ensures Times(a, w) <= Times(b, w)
    decreases b - a
  {
    if a < b {
      TimesMono(a, b - 1, w);
    }
  }

  /** Repeated addition is multiplication. */
  lemma {:induction false} TimesIsProduct(k: nat, w: int)
    ensures Times(k, w) == k * w
  {
    if k > 0 {
      TimesIsProduct(k - 1, w);
      assert (k - 1) * w + w == k * w;
    }
  }

  /** The weights `dijkstra` is run with: none negative, none above `w`, and
      small enough that no distance it adds up reaches `Int.MAX_VALUE`. */
  ghost predicate Weights(g: Graph, s: Node, w: int) {
    && 0 <= w
    && (forall e :: e in g.edges ==> 0 <= e.weight <= w)
    && Times(|Universe(g, s)|, w) < INT_MAX
  }

  /** The shape of the two maps: every listed node has a precursor entry,
      only the start may lack one; the start is at 0 without precursor, and
      any other node has a precursor exactly when it is reached. */
  ghost predicate Labels(g: Graph, s: Node, dist: map<Node, int>, prev: map<Node, Option<Node>>) {
    && dist.Keys == prev.Keys + {s}
    && (forall n :: n in g.nodes ==> n in prev)
    && dist.Keys <= Universe(g, s)
    && dist[s] == 0
    && (s in prev ==> prev[s] == None)
    && forall v {:trigger prev[v]} :: v in prev && v != s ==> dist[v] <= INT_MAX && (prev[v].Some? <==> dist[v] < INT_MAX)
  }

  /** Every frontier entry names a node whose distance is at most the
      entry's, and lies between `low` and `high`. */
  ghost predicate Entries(queue: seq<Entry>, dist: map<Node, int>, low: int, high: int) {
    forall p :: p in queue ==> p.0 in dist && dist[p.0] <= p.1 && low <= p.1 <= high
  }

  /** Every reached node not yet settled has an entry carrying its distance. */
  ghost predicate Pending(queue: seq<Entry>, dist: map<Node, int>, rank: map<Node, nat>) {
    forall v {:trigger dist[v]} :: v in dist && v !in rank && dist[v] < INT_MAX ==> (v, dist[v]) in queue
  }

  /** The settled nodes, numbered in settling order: each is at most `last`
      away with room for one more edge below `Int.MAX_VALUE`. */
  ghost predicate Settled(g: Graph, s: Node, w: int, dist: map<Node, int>, rank: map<Node, nat>, last: int) {
    && rank.Keys <= Universe(g, s)
    && forall v {:trigger rank[v]} :: v in rank ==> rank[v] < |rank| && v in dist && dist[v] <= last && dist[v] + w < INT_MAX
  }

  /** Every precursor link is an edge along which the distance rises by
      exactly the edge's weight. */
  ghost predicate PrevTight(g: Graph, dist: map<Node, int>, prev: map<Node, Option<Node>>) {
    forall v {:trigger prev[v]} :: v in prev && prev[v].Some? ==>
      && v in dist && prev[v].value in dist
      && exists e {:trigger Walks.Joins(e.ToLink(), prev[v].value.id, v.id)} ::
           e in g.edges && Walks.Joins(e.ToLink(), prev[v].value.id, v.id) && dist[v] == dist[prev[v].value] + e.weight
  }

  /** Every precursor is settled, and before its successor when that is
      settled too. */
  ghost predicate PrevRanked(prev: map<Node, Option<Node>>, rank: map<Node, nat>) {
    forall v {:trigger prev[v]} :: v in prev && prev[v].Some? ==>
      prev[v].value in rank && (v in rank ==> rank[prev[v].value] < rank[v])
  }

  /** The edge `e` at `x` is relaxed: the node it leads to has a distance, at
      most `x`'s plus the weight. */
  ghost predicate RelaxedEdge(dist: map<Node, int>, x: Node, e: Edge) {
    match GetNeighbourNode(e.nodesPair, x)
    case None => true
    case Some(y) => x in dist && y in dist && dist[y] <= dist[x] + e.weight
  }

  /** Every edge touching `x` is relaxed. */
  ghost predicate Relaxed(g: Graph, dist: map<Node, int>, x: Node) {
    forall e {:trigger Touches(e, x)} :: e in g.edges && Touches(e, x) ==> RelaxedEdge(dist, x, e)
  }

  /** The invariant of the outer loop. Before the first round the frontier
      is the single entry `(start, 0)`; from then on the start is settled. */
  ghost predicate Round(g: Graph, s: Node, w: int, dist: map<Node, int>, prev: map<Node, Option<Node>>,
                        queue: seq<Entry>, rank: map<Node, nat>, last: int)
  {
    && Labels(g, s, dist, prev)
    && Entries(queue, dist, last, Times(|rank|, w))
    && Pending(queue, dist, rank)
    && Settled(g, s, w, dist, rank, last)
    && PrevTight(g, dist, prev)
    && PrevRanked(prev, rank)
    && (forall x :: x in rank ==> Relaxed(g, dist, x))
    && (if rank == map[] then queue == [(s, 0)] && last == 0 else s in rank)
  }

  /** The edge `e` at `u` leads to a node settled before `u`. */
  ghost predicate ToSettled(e: Edge, u: Node, rank: map<Node, nat>) {
    || (e.nodesPair.0 != u && e.nodesPair.0 in rank)
    || (e.nodesPair.1 != u && e.nodesPair.1 in rank)
  }

  /** The state in which the edges at the freshly settled `u` are relaxed:
      `u` is settled at distance `dist[u]`; `es` holds edges at `u` leading
      to no node settled before it, and every other edge at `u` leads to a
      settled node and is relaxed already. */
  ghost predicate Relaxing(g: Graph, s: Node, w: int, dist: map<Node, int>, prev: map<Node, Option<Node>>,
                           queue: seq<Entry>, rank: map<Node, nat>, u: Node, es: seq<Edge>)
  {
    && Labels(g, s, dist, prev)
    && u in rank && u in dist && s in rank
    && dist[u] + w <= Times(|rank|, w)
    && Entries(queue, dist, dist[u], Times(|rank|, w))
    && Pending(queue, dist, rank)
    && Settled(g, s, w, dist, rank, dist[u])
    && PrevTight(g, dist, prev)
    && PrevRanked(prev, rank)
    && OthersRelaxed(g, dist, rank, u)
    && SettledRelaxed(g, dist, rank, u)
    && EdgesAt(g, rank, u, es)
  }

  /** Every settled node other than `u` has its edges relaxed. */
  ghost predicate OthersRelaxed(g: Graph, dist: map<Node, int>, rank: map<Node, nat>, u: Node) {
    forall x :: x in rank && x != u ==> Relaxed(g, dist, x)
  }

  /** Every edge from `u` to a node settled before it is relaxed. */
  ghost predicate SettledRelaxed(g: Graph, dist: map<Node, int>, rank: map<Node, nat>, u: Node) {
    forall e {:trigger Touches(e, u)} :: e in g.edges && Touches(e, u) && ToSettled(e, u, rank) ==> RelaxedEdge(dist, u, e)
  }

  /** `es` lists exactly the edges at `u` leading to no node settled before it. */
  ghost predicate EdgesAt(g: Graph, rank: map<Node, nat>, u: Node, es: seq<Edge>) {
    && (forall j :: 0 <= j < |es| ==> es[j] in g.edges && Touches(es[j], u) && !ToSettled(es[j], u, rank))
    && (forall e :: e in g.edges && Touches(e, u) && !ToSettled(e, u, rank) ==> e in es)
  }

  /** A subset is no larger than its superset. */
  lemma {:induction false} SubsetCard<T>(a: set<T>, b: set<T>)
    requires a <= b
    ensures |a| <= |b|
    decreases |a|
  {
    if a != {} {
      var x :| x in a;
      SubsetCard(a - {x}, b - {x});
    }
  }

  /** `directNeighboursEdgesWithoutSettled`: the edges touching `node` whose
      endpoints are both unsettled, in the list's order. */
  function UnsettledNeighbourEdges(edges: seq<Edge>, node: Node, settled: seq<Node>): (r: seq<Edge>)
    ensures forall e :: e in r <==> e in edges && Touches(e, node) && e.nodesPair.0 !in settled && e.nodesPair.1 !in settled
  {
    var keep := (e: Edge) => e.nodesPair.0 !in settled && e.nodesPair.1 !in settled;
    var r := Filter(GetAllNeighboursEdges(edges, node), keep);
    FilterCount(GetAllNeighboursEdges(edges, node), keep);
    assert forall e :: e in r <==> e in multiset(r);
    r
  }

  /** The entry pushed for the edge `e` at the popped entry: the far end
      and the popped distance plus the edge's weight, improving or not. */
  function PushedFor(e: Edge, active: Entry): seq<Entry> {
    match GetNeighbourNode(e.nodesPair, active.0)
    case None => []
    case Some(y) => [(y, e.weight + active.1)]
  }

  /** The frontier after the first `i` edges of a relaxation round: one
      entry pushed per edge touching the popped node. */
  function Frontier(queue: seq<Entry>, es: seq<Edge>, i: nat, active: Entry): seq<Entry>
    requires i <= |es|
  {
    if i == 0 then queue else Frontier(queue, es, i - 1, active) + PushedFor(es[i - 1], active)
  }

  /** An edge at the popped node pushes its far end at the popped distance
      plus the weight. */
  lemma PushedForNeighbour(e: Edge, active: Entry, nb: Node)
    requires GetNeighbourNode(e.nodesPair, active.0) == Some(nb)
    ensures PushedFor(e, active) == [(nb, e.weight + active.1)]
  {
  }

  /** From `dist`/`prev` to `dist'`/`prev'` distances only went down, and a
      node's distance and precursor changed together, the precursor to `u`. */
  ghost predicate Lowered(dist: map<Node, int>, prev: map<Node, Option<Node>>,
                          dist': map<Node, int>, prev': map<Node, Option<Node>>, u: Node)
  {
    && dist.Keys <= dist'.Keys
    && prev.Keys <= prev'.Keys
    && (forall v :: v in prev' ==> v in prev || v in dist')
    && forall v {:trigger dist'[v]} :: v in dist' ==>
         || (v in dist && dist'[v] == dist[v] && Precursor(prev', v) == Precursor(prev, v))
         || ((v !in dist || dist'[v] < dist[v]) && Precursor(prev', v) == Some(u))
  }

  /** Setting a node's distance lower, or for the first time, with `u` as
      its precursor lowers the maps towards `u`. */
  lemma LowerStep(dist: map<Node, int>, prev: map<Node, Option<Node>>, u: Node, nb: Node, total: int)
    requires nb !in dist || total < dist[nb]
    ensures Lowered(dist, prev, dist[nb := total], prev[nb := Some(u)], u)
  {
  }

  /** Two rounds of lowering towards the same node make one. */
  lemma LoweredTrans(d0: map<Node, int>, p0: map<Node, Option<Node>>, d1: map<Node, int>, p1: map<Node, Option<Node>>,
                     d2: map<Node, int>, p2: map<Node, Option<Node>>, u: Node)
    requires Lowered(d0, p0, d1, p1, u) && Lowered(d1, p1, d2, p2, u)
    ensures Lowered(d0, p0, d2, p2, u)
  {
    forall v | v in d2
      ensures || (v in d0 && d2[v] == d0[v] && Precursor(p2, v) == Precursor(p0, v))
              || ((v !in d0 || d2[v] < d0[v]) && Precursor(p2, v) == Some(u))
    {
      if v in d1 {
        assert d1[v] == d1[v];
      }
    }
  }

  /** Initialisation establishes the invariant of the outer loop. */
  lemma SetupRound(g: Graph, s: Node, w: int, dist: map<Node, int>, prev: map<Node, Option<Node>>, queue: seq<Entry>)
    requires Weights(g, s, w)
    requires dist.Keys == (set n | n in g.nodes) + {s} && dist[s] == 0
    requires forall n :: n in dist && n != s ==> dist[n] == INT_MAX
    requires prev.Keys == (set n | n in g.nodes) && forall n :: n in prev ==> prev[n] == None
    requires queue == [(s, 0)]
    ensures Round(g, s, w, dist, prev, queue, map[], 0)
  {
    assert Labels(g, s, dist, prev);
    assert Entries(queue, dist, 0, Times(0, w));
    assert Pending(queue, dist, map[]);
    assert PrevTight(g, dist, prev) && PrevRanked(prev, map[]);
  }

  /** Taking an entry off the frontier, no entry below `low'` left, keeps
      the frontier's bookkeeping for any larger set of settled nodes that
      holds the entry's node. */
  lemma PopQueue(dist: map<Node, int>, queue0: seq<Entry>, queue: seq<Entry>, rank: map<Node, nat>, rank': map<Node, nat>,
                 active: Entry, low: int, high: int, low': int, high': int)
    requires Entries(queue0, dist, low, high) && Pending(queue0, dist, rank)
    requires forall y :: y in queue ==> y in queue0
    requires forall y :: y in queue0 && y != active ==> y in queue
    requires rank.Keys <= rank'.Keys && active.0 in rank'
    requires (forall p :: p in queue0 ==> low' <= p.1) && high <= high'
    ensures Entries(queue, dist, low', high')
    ensures Pending(queue, dist, rank')
  {
    forall v | v in dist && v !in rank' && dist[v] < INT_MAX ensures (v, dist[v]) in queue {
      assert (v, dist[v]) in queue0;
    }
  }

  /** Settling `u` at distance `x`, no nearer than any settled node and with
      room for one more edge, keeps the settled nodes' bookkeeping. */
  lemma PopSettled(g: Graph, s: Node, w: int, dist: map<Node, int>, rank: map<Node, nat>, last: int, u: Node)
    requires Settled(g, s, w, dist, rank, last)
    requires u !in rank && u in dist && u in Universe(g, s) && last <= dist[u] && dist[u] + w < INT_MAX
    ensures Settled(g, s, w, dist, rank[u := |rank|], dist[u])
  {
    var rank' := rank[u := |rank|];
    forall v | v in rank' ensures rank'[v] < |rank'| && v in dist && dist[v] <= dist[u] && dist[v] + w < INT_MAX {
      if v != u {
        assert rank[v] < |rank|;
      }
    }
  }

  /** Settling an unsettled node after all others keeps precursors settled
      before their successors. */
  lemma PopRanked(prev: map<Node, Option<Node>>, rank: map<Node, nat>, u: Node)
    requires PrevRanked(prev, rank) && u !in rank
    requires forall v {:trigger rank[v]} :: v in rank ==> rank[v] < |rank|
    ensures PrevRanked(prev, rank[u := |rank|])
  {
    var rank' := rank[u := |rank|];
    forall v | v in prev && prev[v].Some? ensures prev[v].value in rank' && (v in rank' ==> rank'[prev[v].value] < rank'[v]) {
      assert prev[v].value in rank;
    }
  }

  /** An edge from `u` to a settled node is relaxed already: the settled
      node is no farther than `u`, and weights are not negative. */
  lemma SettledEdges(g: Graph, s: Node, w: int, dist: map<Node, int>, rank: map<Node, nat>, last: int, u: Node)
    requires Weights(g, s, w) && Settled(g, s, w, dist, rank, last)
    requires u !in rank && u in dist && last <= dist[u]
    ensures SettledRelaxed(g, dist, rank[u := |rank|], u)
  {
    forall e | e in g.edges && Touches(e, u) && ToSettled(e, u, rank[u := |rank|]) ensures RelaxedEdge(dist, u, e) {
      var y := GetNeighbourNode(e.nodesPair, u).value;
      assert y in rank;
    }
  }

  /** The edges `directNeighboursEdgesWithoutSettled` yields at a node just
      settled are exactly those leading to no node settled before it. */
  lemma UnsettledEdges(g: Graph, rank: map<Node, nat>, u: Node, es: seq<Edge>)
    requires u !in rank
    requires forall e :: e in es <==> e in g.edges && Touches(e, u) && e.nodesPair.0 !in rank && e.nodesPair.1 !in rank
    ensures EdgesAt(g, rank[u := |rank|], u, es)
  {
    forall j | 0 <= j < |es| ensures es[j] in g.edges && Touches(es[j], u) && !ToSettled(es[j], u, rank[u := |rank|]) {
      assert es[j] in es;
    }
  }

  /** The least entry of the frontier, when its node is unsettled, carries
      that node's distance, no nearer than any settled node, and settling
      the node leaves room for one more edge. */
  lemma FreshHead(g: Graph, s: Node, w: int, dist: map<Node, int>,
                  queue0: seq<Entry>, rank: map<Node, nat>, last: int, active: Entry)
    requires Weights(g, s, w)
    requires dist.Keys <= Universe(g, s) && rank.Keys <= Universe(g, s)
    requires Entries(queue0, dist, last, Times(|rank|, w)) && Pending(queue0, dist, rank)
    requires if rank == map[] then queue0 == [(s, 0)] else s in rank
    requires active in queue0 && forall p :: p in queue0 ==> active.1 <= p.1
    requires active.0 !in rank
    ensures active.0 in dist && dist[active.0] == active.1 && last <= active.1 && active.0 in Universe(g, s)
    ensures s in rank[active.0 := |rank|]
    ensures Times(|rank[active.0 := |rank|]|, w) == Times(|rank|, w) + w
    ensures active.1 + w <= Times(|rank[active.0 := |rank|]|, w) < INT_MAX
  {
    var u, x := active.0, active.1;
    var rank' := rank[u := |rank|];
    var U := Universe(g, s);
    assert u in dist && u in U;
    assert |rank'| == |rank| + 1;
    assert Times(|rank'|, w) == Times(|rank|, w) + w;
    assert x + w <= Times(|rank'|, w) < INT_MAX by {
      SubsetCard(rank'.Keys, U);
      TimesMono(|rank'|, |U|, w);
    }
    assert dist[u] == x && last <= x by {
      assert (u, dist[u]) in queue0;
    }
    if rank == map[] {
      assert active == (s, 0);
    }
  }

  /** Taking the least entry off the frontier, its node unsettled, and
      settling that node keeps the frontier's and the settled nodes'
      bookkeeping, with the entry's distance as the new threshold. */
  lemma FreshQueue(g: Graph, s: Node, w: int, dist: map<Node, int>, prev: map<Node, Option<Node>>,
                   queue0: seq<Entry>, rank: map<Node, nat>, last: int, active: Entry, queue: seq<Entry>)
    requires Weights(g, s, w)
    requires Round(g, s, w, dist, prev, queue0, rank, last)
    requires active in queue0 && forall p :: p in queue0 ==> active.1 <= p.1
    requires forall y :: y in queue ==> y in queue0
    requires forall y :: y in queue0 && y != active ==> y in queue
    requires active.0 !in rank
    ensures active.0 in dist && dist[active.0] == active.1 && last <= active.1 && active.0 in Universe(g, s)
    ensures s in rank[active.0 := |rank|] && active.1 + w <= Times(|rank[active.0 := |rank|]|, w)
    ensures Entries(queue, dist, active.1, Times(|rank[active.0 := |rank|]|, w))
    ensures Pending(queue, dist, rank[active.0 := |rank|])
    ensures Settled(g, s, w, dist, rank[active.0 := |rank|], active.1)
  {
    var u, x := active.0, active.1;
    var rank' := rank[u := |rank|];
    FreshHead(g, s, w, dist, queue0, rank, last, active);
    PopQueue(dist, queue0, queue, rank, rank', active, last, Times(|rank|, w), x, Times(|rank'|, w));
    PopSettled(g, s, w, dist, rank, last, u);
  }

  /** A fresh pop: the least entry belongs to an unsettled node, so it
      carries that node's distance; settling the node sets up the inner loop. */
  lemma FreshPop(g: Graph, s: Node, w: int, dist: map<Node, int>, prev: map<Node, Option<Node>>,
                 queue0: seq<Entry>, rank: map<Node, nat>, last: int, active: Entry, queue: seq<Entry>, es: seq<Edge>)
    requires Weights(g, s, w)
    requires Round(g, s, w, dist, prev, queue0, rank, last)
    requires active in queue0 && forall p :: p in queue0 ==> active.1 <= p.1
    requires forall y :: y in queue ==> y in queue0
    requires forall y :: y in queue0 && y != active ==> y in queue
    requires active.0 !in rank
    requires forall e :: e in es <==> e in g.edges && Touches(e, active.0) && e.nodesPair.0 !in rank && e.nodesPair.1 !in rank
    ensures active.0 in dist && dist[active.0] == active.1 && last <= active.1 && active.0 in Universe(g, s)
    ensures Relaxing(g, s, w, dist, prev, queue, rank[active.0 := |rank|], active.0, es)
  {
    var u := active.0;
    var rank' := rank[u := |rank|];
    FreshQueue(g, s, w, dist, prev, queue0, rank, last, active, queue);
    PopRanked(prev, rank, u);
    SettledEdges(g, s, w, dist, rank, last, u);
    UnsettledEdges(g, rank, u, es);
  }

  /** A non-empty list has its first element. */
  lemma HeadListed(es: seq<Edge>)
    requires |es| > 0
    ensures es[0] in es
  {
  }

  /** A list with no element is empty. */
  lemma NoneListed(es: seq<Edge>)
    requires forall e :: e !in es
    ensures es == []
  {
    if |es| > 0 {
      HeadListed(es);
      assert false;
    }
  }

  /** A stale pop: the entry's node is settled already, so every edge
      touching it is skipped, and dropping the entry keeps the invariant. */
  lemma StalePop(g: Graph, s: Node, w: int, dist: map<Node, int>, prev: map<Node, Option<Node>>,
                 queue0: seq<Entry>, rank: map<Node, nat>, last: int, active: Entry, queue: seq<Entry>, es: seq<Edge>)
    requires Round(g, s, w, dist, prev, queue0, rank, last)
    requires active in queue0
    requires forall y :: y in queue ==> y in queue0
    requires forall y :: y in queue0 && y != active ==> y in queue
    requires active.0 in rank
    requires forall e :: e in es <==> e in g.edges && Touches(e, active.0) && e.nodesPair.0 !in rank && e.nodesPair.1 !in rank
    ensures es == []
    ensures Round(g, s, w, dist, prev, queue, rank, last)
  {
    assert forall e :: e !in es;
    NoneListed(es);
    assert rank != map[];
    PopQueue(dist, queue0, queue, rank, rank, active, last, Times(|rank|, w), last, Times(|rank|, w));
  }

  /** With `settled` listing the settled nodes, the edges
      `directNeighboursEdgesWithoutSettled` yields are the edges at `u` both
      of whose endpoints are unsettled. */
  lemma UnsettledRanked(g: Graph, u: Node, settled: seq<Node>, rank: map<Node, nat>)
    requires forall v :: v in settled <==> v in rank
    ensures forall e :: e in UnsettledNeighbourEdges(g.edges, u, settled) <==>
      e in g.edges && Touches(e, u) && e.nodesPair.0 !in rank && e.nodesPair.1 !in rank
  {
  }

  /** Settling one more node of the universe leaves fewer to settle. */
  lemma SettleShrinks(U: set<Node>, rank: map<Node, nat>, v: Node, n: nat)
    requires v in U && v !in rank
    ensures |U - rank[v := n].Keys| < |U - rank.Keys|
  {
    assert U - rank[v := n].Keys == (U - rank.Keys) - {v};
  }

  /** `dijkstra`'s initialisation (Graph.kt lines 40-54): every listed node
      at `Int.MAX_VALUE` without precursor, then the start at 0, and the
      frontier holding the least entry of the distance map. */
  method Setup(g: Graph, start: Node) returns (dist: map<Node, int>, prev: map<Node, Option<Node>>, queue: seq<Entry>, settled: seq<Node>)
    ensures dist.Keys == (set n | n in g.nodes) + {start} && dist[start] == 0
    ensures forall n :: n in dist && n != start ==> dist[n] == INT_MAX
    ensures prev.Keys == (set n | n in g.nodes) && forall n :: n in prev ==> prev[n] == None
    ensures queue == [(start, 0)] && settled == []
  {
    dist, prev := map[], map[];
    for i := 0 to |g.nodes|
      invariant dist.Keys == prev.Keys == set n | n in g.nodes[..i]
      invariant forall n :: n in dist ==> dist[n] == INT_MAX
      invariant forall n :: n in prev ==> prev[n] == None
    {
      assert forall n :: n in g.nodes[..i + 1] <==> n in g.nodes[..i] || n == g.nodes[i];
      dist := dist[g.nodes[i] := INT_MAX];
      prev := prev[g.nodes[i] := None];
    }
    assert g.nodes[..|g.nodes|] == g.nodes;
    dist := dist[start := 0];
    assert start in dist && forall k :: k in dist ==> dist[start] <= dist[k];
    var first :| first in dist && forall k :: k in dist ==> dist[first] <= dist[k];
    assert dist[first] <= dist[start];
    queue := [(first, dist[first])];
    settled := [];
  }

  /** The edge `e` leads from the popped entry's node to a node that has no
      distance yet, or a larger one than the popped distance plus the weight. */
  predicate Improves(dist: map<Node, int>, e: Edge, active: Entry) {
    match GetNeighbourNode(e.nodesPair, active.0)
    case None => false
    case Some(y) => y !in dist || e.weight + active.1 < dist[y]
  }

  /** The distances after the inner loop of `dijkstra` has handled the first
      `i` edges of `es` at the popped entry `active`: an improved far end
      gets the popped distance plus the weight. */
  function Distances(dist: map<Node, int>, es: seq<Edge>, i: nat, active: Entry): map<Node, int>
    requires i <= |es|
  {
    if i == 0 then dist
    else
      var d := Distances(dist, es, i - 1, active);
      var e := es[i - 1];
      if Improves(d, e, active) then d[GetNeighbourNode(e.nodesPair, active.0).value := e.weight + active.1] else d
  }

  /** The precursors after the first `i` edges: an improved far end gets
      the popped node as its precursor. */
  function Precursors(dist: map<Node, int>, prev: map<Node, Option<Node>>, es: seq<Edge>, i: nat, active: Entry)
    : map<Node, Option<Node>>
    requires i <= |es|
  {
    if i == 0 then prev
    else
      var p := Precursors(dist, prev, es, i - 1, active);
      var e := es[i - 1];
      if Improves(Distances(dist, es, i - 1, active), e, active) then p[GetNeighbourNode(e.nodesPair, active.0).value := Some(active.0)] else p
  }

  /** A round only lowers distances, each time with the popped node as
      the new precursor. */
  lemma {:induction false} RelaxEdgesLowered(dist: map<Node, int>, prev: map<Node, Option<Node>>, es: seq<Edge>, i: nat, active: Entry)
    requires i <= |es|
    ensures Lowered(dist, prev, Distances(dist, es, i, active), Precursors(dist, prev, es, i, active), active.0)
  {
    if i > 0 {
      RelaxEdgesLowered(dist, prev, es, i - 1, active);
      var d, p := Distances(dist, es, i - 1, active), Precursors(dist, prev, es, i - 1, active);
      var e := es[i - 1];
      if Improves(d, e, active) {
        var nb, total := GetNeighbourNode(e.nodesPair, active.0).value, e.weight + active.1;
        LowerStep(d, p, active.0, nb, total);
        LoweredTrans(dist, prev, d, p, d[nb := total], p[nb := Some(active.0)], active.0);
      }
    }
  }

  /** Nodes at most `x` away keep their distance from `dist` to `dist'`. */
  ghost predicate NearKept(dist: map<Node, int>, dist': map<Node, int>, x: int) {
    forall v {:trigger dist[v]} :: v in dist && dist[v] <= x ==> v in dist' && dist'[v] == dist[v]
  }

  /** `p` is the entry pushed for one of the first `i` edges of `es` at the
      popped entry `active`: the edge's far end at the popped distance plus
      the weight. */
  ghost predicate PushedBy(es: seq<Edge>, i: nat, active: Entry, p: Entry) {
    exists j :: 0 <= j < i && j < |es| && GetNeighbourNode(es[j].nodesPair, active.0) == Some(p.0) && p.1 == es[j].weight + active.1
  }

  /** Every node whose distance changed from `dist` to `dist'` has an entry
      at its new distance in `queue'`, pushed for one of the first `i` edges. */
  ghost predicate Improved(dist: map<Node, int>, dist': map<Node, int>, queue': seq<Entry>, es: seq<Edge>, i: nat, active: Entry) {
    forall v {:trigger dist'[v]} :: v in dist' && (v !in dist || dist'[v] != dist[v]) ==>
      (v, dist'[v]) in queue' && PushedBy(es, i, active, (v, dist'[v]))
  }

  /** `queue'` keeps every entry of `queue`, and any other entry of it was
      pushed for one of the first `i` edges. */
  ghost predicate Grown(queue: seq<Entry>, queue': seq<Entry>, es: seq<Edge>, i: nat, active: Entry) {
    && (forall p :: p in queue ==> p in queue')
    && forall p :: p in queue' ==> p in queue || PushedBy(es, i, active, p)
  }

  /** The first `i` edges of `es` are relaxed at `u`. */
  ghost predicate EdgesRelaxed(dist: map<Node, int>, u: Node, es: seq<Edge>, i: nat) {
    forall j :: 0 <= j < i && j < |es| ==> RelaxedEdge(dist, u, es[j])
  }

  /** Weights not negative, a round never changes the distance of a node at
      most the popped distance away. */
  lemma {:induction false} RelaxEdgesNear(dist: map<Node, int>, es: seq<Edge>, i: nat, active: Entry)
    requires i <= |es|
    requires forall j :: 0 <= j < |es| ==> 0 <= es[j].weight
    ensures NearKept(dist, Distances(dist, es, i, active), active.1)
  {
    if i > 0 {
      RelaxEdgesNear(dist, es, i - 1, active);
      var d, e := Distances(dist, es, i - 1, active), es[i - 1];
      if Improves(d, e, active) {
        var y := GetNeighbourNode(e.nodesPair, active.0).value;
        assert 0 <= e.weight;
        assert !(y in dist && dist[y] <= active.1);
      }
    }
  }

  /** Every node a round improves gets an entry at its new distance, pushed
      for an edge leading to it from the popped node. */
  lemma {:induction false} RelaxEdgesImproved(dist: map<Node, int>, queue: seq<Entry>, es: seq<Edge>, i: nat, active: Entry)
    requires i <= |es|
    ensures Improved(dist, Distances(dist, es, i, active), Frontier(queue, es, i, active), es, i, active)
  {
    if i > 0 {
      RelaxEdgesImproved(dist, queue, es, i - 1, active);
      var d, d' := Distances(dist, es, i - 1, active), Distances(dist, es, i, active);
      var f, f' := Frontier(queue, es, i - 1, active), Frontier(queue, es, i, active);
      var e := es[i - 1];
      forall v | v in d' && (v !in dist || d'[v] != dist[v]) ensures (v, d'[v]) in f' && PushedBy(es, i, active, (v, d'[v])) {
        if Improves(d, e, active) && v == GetNeighbourNode(e.nodesPair, active.0).value {
          PushedForNeighbour(e, active, v);
          assert GetNeighbourNode(es[i - 1].nodesPair, active.0) == Some(v) && d'[v] == es[i - 1].weight + active.1;
        } else {
          assert v in d && d'[v] == d[v];
          assert (v, d[v]) in f;
          var j :| 0 <= j < i - 1 && j < |es| && GetNeighbourNode(es[j].nodesPair, active.0) == Some(v) && d[v] == es[j].weight + active.1;
        }
      }
    }
  }

  /** A round only adds entries to the frontier, each pushed for an edge at
      the popped node. */
  lemma {:induction false} RelaxEdgesGrown(queue: seq<Entry>, es: seq<Edge>, i: nat, active: Entry)
    requires i <= |es|
    ensures Grown(queue, Frontier(queue, es, i, active), es, i, active)
  {
    if i > 0 {
      RelaxEdgesGrown(queue, es, i - 1, active);
      var f, e := Frontier(queue, es, i - 1, active), es[i - 1];
      forall p | p in Frontier(queue, es, i, active) ensures p in queue || PushedBy(es, i, active, p) {
        if p in f {
          if p !in queue {
            var j :| 0 <= j < i - 1 && j < |es| && GetNeighbourNode(es[j].nodesPair, active.0) == Some(p.0) && p.1 == es[j].weight + active.1;
          }
        } else {
          var y := GetNeighbourNode(e.nodesPair, active.0).value;
          PushedForNeighbour(e, active, y);
          assert GetNeighbourNode(es[i - 1].nodesPair, active.0) == Some(p.0) && p.1 == es[i - 1].weight + active.1;
        }
      }
    }
  }

  /** Weights not negative, after a round every edge it handled is relaxed
      at the popped node. */
  lemma {:induction false} RelaxEdgesRelaxed(dist: map<Node, int>, es: seq<Edge>, i: nat, active: Entry)
    requires i <= |es|
    requires forall j :: 0 <= j < |es| ==> 0 <= es[j].weight
    requires active.0 in dist && dist[active.0] == active.1
    ensures EdgesRelaxed(Distances(dist, es, i, active), active.0, es, i)
  {
    if i > 0 {
      RelaxEdgesRelaxed(dist, es, i - 1, active);
      RelaxEdgesNear(dist, es, i - 1, active);
      RelaxEdgesNear(dist, es, i, active);
      var u := active.0;
      var d, d' := Distances(dist, es, i - 1, active), Distances(dist, es, i, active);
      assert d[u] == active.1 && d'[u] == active.1;
      forall j | 0 <= j < i && j < |es| ensures RelaxedEdge(d', u, es[j]) {
        match GetNeighbourNode(es[j].nodesPair, u)
        case None =>
        case Some(y) =>
          if j < i - 1 {
            assert RelaxedEdge(d, u, es[j]);
            assert y in d' && d'[y] <= d[y];
          }
      }
    }
  }

  /** A round keeps the shape of the two maps: improved nodes are endpoints
      of listed edges, reached below `Int.MAX_VALUE`. */
  lemma AfterLabels(g: Graph, s: Node, w: int, dist: map<Node, int>, prev: map<Node, Option<Node>>,
                    dist': map<Node, int>, prev': map<Node, Option<Node>>, queue': seq<Entry>, es: seq<Edge>, active: Entry)
    requires Labels(g, s, dist, prev) && Lowered(dist, prev, dist', prev', active.0)
    requires s in dist && dist[s] <= active.1 && NearKept(dist, dist', active.1)
    requires Improved(dist, dist', queue', es, |es|, active)
    requires forall j :: 0 <= j < |es| ==> es[j] in g.edges && 0 <= es[j].weight <= w
    requires active.1 + w < INT_MAX
    ensures Labels(g, s, dist', prev')
  {
    forall v | v in dist' && (v !in dist || dist'[v] != dist[v])
      ensures v in Universe(g, s) && dist'[v] < INT_MAX
    {
      var j :| 0 <= j < |es| && GetNeighbourNode(es[j].nodesPair, active.0) == Some(v) && dist'[v] == es[j].weight + active.1;
      EndpointsHold(g.edges, es[j]);
    }
  }

  /** A round keeps the frontier's bookkeeping: old entries only got
      closer, new entries lie within one edge of the popped distance. */
  lemma AfterQueue(dist: map<Node, int>, prev: map<Node, Option<Node>>, dist': map<Node, int>, prev': map<Node, Option<Node>>,
                   queue: seq<Entry>, queue': seq<Entry>, rank: map<Node, nat>, es: seq<Edge>, active: Entry, w: int, high: int)
    requires Entries(queue, dist, active.1, high) && Pending(queue, dist, rank)
    requires Lowered(dist, prev, dist', prev', active.0)
    requires Improved(dist, dist', queue', es, |es|, active) && Grown(queue, queue', es, |es|, active)
    requires EdgesRelaxed(dist', active.0, es, |es|) && active.0 in dist' && dist'[active.0] == active.1
    requires forall j :: 0 <= j < |es| ==> 0 <= es[j].weight <= w
    requires active.1 + w <= high
    ensures Entries(queue', dist', active.1, high) && Pending(queue', dist', rank)
  {
    forall p | p in queue' ensures p.0 in dist' && dist'[p.0] <= p.1 && active.1 <= p.1 <= high {
      if p !in queue {
        var j :| 0 <= j < |es| && GetNeighbourNode(es[j].nodesPair, active.0) == Some(p.0) && p.1 == es[j].weight + active.1;
        assert RelaxedEdge(dist', active.0, es[j]);
      }
    }
    forall v | v in dist' && v !in rank && dist'[v] < INT_MAX ensures (v, dist'[v]) in queue' {
      if v in dist && dist'[v] == dist[v] {
        assert (v, dist[v]) in queue;
      }
    }
  }

  /** A round keeps the settled nodes' bookkeeping. */
  lemma AfterSettled(g: Graph, s: Node, w: int, dist: map<Node, int>, dist': map<Node, int>, rank: map<Node, nat>, x: int)
    requires Settled(g, s, w, dist, rank, x) && NearKept(dist, dist', x)
    ensures Settled(g, s, w, dist', rank, x)
  {
  }

  /** A round keeps precursor links tight and settled first: an improved
      node gets the popped node as precursor across the edge it came by. */
  lemma AfterTight(g: Graph, s: Node, w: int, dist: map<Node, int>, prev: map<Node, Option<Node>>,
                   dist': map<Node, int>, prev': map<Node, Option<Node>>, queue': seq<Entry>,
                   rank: map<Node, nat>, es: seq<Edge>, active: Entry)
    requires PrevTight(g, dist, prev) && PrevRanked(prev, rank) && prev.Keys <= dist.Keys
    requires Settled(g, s, w, dist, rank, active.1)
    requires active.0 in rank && active.0 in dist && dist[active.0] == active.1
    requires Lowered(dist, prev, dist', prev', active.0) && NearKept(dist, dist', active.1)
    requires Improved(dist, dist', queue', es, |es|, active)
    requires forall j :: 0 <= j < |es| ==> es[j] in g.edges
    ensures PrevTight(g, dist', prev') && PrevRanked(prev', rank)
  {
    var u := active.0;
    forall v | v in prev' && prev'[v].Some?
      ensures v in dist' && prev'[v].value in dist'
      ensures exists e {:trigger Walks.Joins(e.ToLink(), prev'[v].value.id, v.id)} ::
        e in g.edges && Walks.Joins(e.ToLink(), prev'[v].value.id, v.id) && dist'[v] == dist'[prev'[v].value] + e.weight
      ensures prev'[v].value in rank && (v in rank ==> rank[prev'[v].value] < rank[v])
    {
      assert v in dist';
      if v in dist && dist'[v] == dist[v] {
        assert Precursor(prev', v) == Precursor(prev, v);
        var p := prev[v].value;
        assert p in rank;
        var e :| e in g.edges && Walks.Joins(e.ToLink(), p.id, v.id) && dist[v] == dist[p] + e.weight;
        assert dist'[p] == dist[p];
        assert Walks.Joins(e.ToLink(), prev'[v].value.id, v.id);
      } else {
        assert prev'[v] == Some(u);
        var j :| 0 <= j < |es| && GetNeighbourNode(es[j].nodesPair, u) == Some(v) && dist'[v] == es[j].weight + active.1;
        NeighbourJoins(es[j], u, v);
        assert Walks.Joins(es[j].ToLink(), prev'[v].value.id, v.id);
        assert v !in rank;
      }
    }
  }

  /** A round leaves every edge at a settled node relaxed: those at the
      popped node it handled itself, the others only saw their far end get
      closer. */
  lemma AfterRelaxed(g: Graph, s: Node, w: int, dist: map<Node, int>, prev: map<Node, Option<Node>>,
                     dist': map<Node, int>, prev': map<Node, Option<Node>>, rank: map<Node, nat>, es: seq<Edge>, active: Entry)
    requires OthersRelaxed(g, dist, rank, active.0) && SettledRelaxed(g, dist, rank, active.0) && EdgesAt(g, rank, active.0, es)
    requires Settled(g, s, w, dist, rank, active.1)
    requires Lowered(dist, prev, dist', prev', active.0) && NearKept(dist, dist', active.1)
    requires EdgesRelaxed(dist', active.0, es, |es|)
    ensures forall x :: x in rank ==> Relaxed(g, dist', x)
  {
    forall x, e | x in rank && e in g.edges && Touches(e, x) ensures RelaxedEdge(dist', x, e) {
      if x == active.0 && !ToSettled(e, x, rank) {
        var j :| 0 <= j < |es| && es[j] == e;
        assert RelaxedEdge(dist', x, es[j]);
      } else {
        assert RelaxedEdge(dist, x, e);
        var y := GetNeighbourNode(e.nodesPair, x).value;
        assert y in dist' && dist'[y] <= dist[y];
        assert dist'[x] == dist[x];
      }
    }
  }

  /** A whole round at a freshly settled node restores the outer invariant,
      with the node's distance as the new threshold. */
  lemma FreshRound(g: Graph, s: Node, w: int, dist: map<Node, int>, prev: map<Node, Option<Node>>, queue: seq<Entry>,
                   rank: map<Node, nat>, es: seq<Edge>, active: Entry)
    requires Weights(g, s, w)
    requires Relaxing(g, s, w, dist, prev, queue, rank, active.0, es)
    requires dist[active.0] == active.1
    ensures Round(g, s, w, Distances(dist, es, |es|, active), Precursors(dist, prev, es, |es|, active),
                  Frontier(queue, es, |es|, active), rank, active.1)
  {
    var n := |es|;
    var dist', prev', queue' := Distances(dist, es, n, active), Precursors(dist, prev, es, n, active), Frontier(queue, es, n, active);
    assert forall j :: 0 <= j < n ==> es[j] in g.edges && 0 <= es[j].weight <= w;
    RelaxEdgesLowered(dist, prev, es, n, active);
    RelaxEdgesNear(dist, es, n, active);
    RelaxEdgesImproved(dist, queue, es, n, active);
    RelaxEdgesGrown(queue, es, n, active);
    RelaxEdgesRelaxed(dist, es, n, active);
    assert active.0 in dist' && dist'[active.0] == active.1;
    AfterLabels(g, s, w, dist, prev, dist', prev', queue', es, active);
    AfterQueue(dist, prev, dist', prev', queue, queue', rank, es, active, w, Times(|rank|, w));
    AfterSettled(g, s, w, dist, dist', rank, active.1);
    AfterTight(g, s, w, dist, prev, dist', prev', queue', rank, es, active);
    AfterRelaxed(g, s, w, dist, prev, dist', prev', rank, es, active);
  }

  /** The inner loop of `dijkstra` (Graph.kt lines 68-80), edge by edge. */
  method RelaxNeighbours(active: Entry, es: seq<Edge>, dist0: map<Node, int>, prev0: map<Node, Option<Node>>, queue0: seq<Entry>)
    returns (dist: map<Node, int>, prev: map<Node, Option<Node>>, queue: seq<Entry>)
    ensures dist == Distances(dist0, es, |es|, active)
    ensures prev == Precursors(dist0, prev0, es, |es|, active)
    ensures queue == Frontier(queue0, es, |es|, active)
  {
    dist, prev, queue := dist0, prev0, queue0;
    for i := 0 to |es|
      invariant dist == Distances(dist0, es, i, active)
      invariant prev == Precursors(dist0, prev0, es, i, active)
      invariant queue == Frontier(queue0, es, i, active)
    {
      var aNeighbourEdge := es[i];
      var neighbour := GetNeighbourNode(aNeighbourEdge.nodesPair, active.0);
      if neighbour.Some? {
        var theNeighbourNode := neighbour.value;
        var totalDistance := aNeighbourEdge.weight + active.1;
        var currentlyBestKnownShortestDistance := if theNeighbourNode in dist then Some(dist[theNeighbourNode]) else None;
        if currentlyBestKnownShortestDistance.None? || totalDistance < currentlyBestKnownShortestDistance.value {
          dist := dist[theNeighbourNode := totalDistance];
          prev := prev[theNeighbourNode := Some(active.0)];
        }
        queue := queue + [(theNeighbourNode, totalDistance)];
      }
    }
  }

  /** Ranks that strictly fall along precursor links make every backward
      walk reach a node without precursor. */
  lemma {:induction false} RankedRooted(prev: map<Node, Option<Node>>, rank: map<Node, nat>, v: Node, k: nat)
    requires PrevRanked(prev, rank)
    requires v in rank && rank[v] <= k
    ensures Rooted(prev, v, k)
    decreases k
  {
    if Precursor(prev, v).Some? {
      RankedRooted(prev, rank, prev[v].value, k - 1);
    }
  }

  /** The distance a result records for the node with id `i`, the start's
      being 0, for the nodes reached: a labelling of walk vertices. */
  ghost function Reached(r: DijkstraResult): map<int, int> {
    var ids := set v | v in r.distances :: v.id;
    (map i | i in ids && Node(i) in r.distances && r.distances[Node(i)] < INT_MAX :: r.distances[Node(i)])[r.source.id := 0]
  }

  /** The precursor link from `p` to `v` is an edge of the graph along
      which the reached distance rises by exactly its weight. */
  ghost predicate TightLink(g: Graph, r: DijkstraResult, p: Node, v: Node) {
    && p.id in Reached(r) && v.id in Reached(r)
    && exists e :: e in g.edges && Walks.Joins(e.ToLink(), p.id, v.id) && Reached(r)[v.id] == Reached(r)[p.id] + e.weight
  }

  /** What a completed run returns: the start left out of `distances`, every
      other listed node in it; `Int.MAX_VALUE` exactly for the nodes without
      precursor; the reached distances closed over every edge; precursor
      links tight; and every backward walk rooted. */
  ghost predicate Finished(g: Graph, r: DijkstraResult) {
    && r.source !in r.distances
    && r.distances.Keys == r.precursors.Keys - {r.source}
    && (forall n :: n in g.nodes && n != r.source ==> n in r.distances)
    && r.distances.Keys <= Universe(g, r.source)
    && (r.source in r.precursors ==> r.precursors[r.source] == None)
    && (forall v {:trigger r.distances[v]} :: v in r.distances ==>
          r.distances[v] <= INT_MAX && (r.precursors[v].Some? <==> r.distances[v] < INT_MAX))
    && Walks.Closed(Links(g), Reached(r))
    && (forall v {:trigger r.precursors[v]} :: v in r.precursors && r.precursors[v].Some? ==> TightLink(g, r, r.precursors[v].value, v))
    && (forall v :: v in r.precursors ==> Rooted(r.precursors, v, |Universe(g, r.source)|))
  }

  /** The distances a run returns: those of every node but the start. */
  lemma DoneDistances(s: Node, dist: map<Node, int>, prev: map<Node, Option<Node>>, r: DijkstraResult)
    requires r == DijkstraResult(s, map k | k in dist && k.id != s.id :: dist[k], prev)
    ensures forall k :: k in r.distances <==> k in dist && k != s
    ensures forall k :: k in r.distances ==> r.distances[k] == dist[k]
  {
  }

  /** With the frontier empty, every node reached below `Int.MAX_VALUE` is
      settled. */
  lemma DoneSettled(dist: map<Node, int>, rank: map<Node, nat>)
    requires Pending([], dist, rank)
    ensures forall v :: v in dist && dist[v] < INT_MAX ==> v in rank
  {
  }

  /** The shape of the result: the start filtered out of the distances,
      every other node in them, each at `Int.MAX_VALUE` exactly when it has
      no precursor. */
  lemma DoneShape(g: Graph, s: Node, dist: map<Node, int>, prev: map<Node, Option<Node>>, r: DijkstraResult)
    requires Labels(g, s, dist, prev)
    requires r == DijkstraResult(s, map k | k in dist && k.id != s.id :: dist[k], prev)
    ensures && r.source !in r.distances
            && r.distances.Keys == r.precursors.Keys - {r.source}
            && (forall n :: n in g.nodes && n != r.source ==> n in r.distances)
            && r.distances.Keys <= Universe(g, r.source)
            && (r.source in r.precursors ==> r.precursors[r.source] == None)
            && (forall v {:trigger r.distances[v]} :: v in r.distances ==>
                  r.distances[v] <= INT_MAX && (r.precursors[v].Some? <==> r.distances[v] < INT_MAX))
  {
    DoneDistances(s, dist, prev, r);
    assert r.distances.Keys == dist.Keys - {s};
    forall v | v in r.distances
      ensures r.distances[v] <= INT_MAX && (r.precursors[v].Some? <==> r.distances[v] < INT_MAX)
    {
      assert v in prev && v != s;
    }
  }

  /** The reached labelling of a finished run: the settled nodes, each at
      its distance, and no other. */
  lemma DoneReached(s: Node, w: int, dist: map<Node, int>, prev: map<Node, Option<Node>>, rank: map<Node, nat>,
                    r: DijkstraResult)
    requires r == DijkstraResult(s, map k | k in dist && k.id != s.id :: dist[k], prev)
    requires 0 <= w && s in rank && s in dist && dist[s] == 0
    requires forall v {:trigger rank[v]} :: v in rank ==> v in dist && dist[v] + w < INT_MAX
    requires forall v :: v in dist && dist[v] < INT_MAX ==> v in rank
    ensures forall v :: v in rank ==> v in dist && v.id in Reached(r) && Reached(r)[v.id] == dist[v]
    ensures forall i :: i in Reached(r) ==> Node(i) in rank
  {
    DoneDistances(s, dist, prev, r);
    var R := Reached(r);
    forall v | v in rank ensures v.id in R && R[v.id] == dist[v] {
      if v != s {
        assert rank[v] >= 0;
        assert v in r.distances && r.distances[v] < INT_MAX;
      }
    }
  }

  /** Relaxed edges at every settled node close the reached labelling. */
  lemma DoneClosed(g: Graph, w: int, dist: map<Node, int>, rank: map<Node, nat>, R: map<int, int>)
    requires forall v :: v in rank ==> v in dist && v.id in R && R[v.id] == dist[v] && dist[v] + w < INT_MAX
    requires forall i :: i in R ==> Node(i) in rank
    requires forall v :: v in dist && dist[v] < INT_MAX ==> v in rank
    requires forall e :: e in g.edges ==> e.weight <= w
    requires forall x :: x in rank ==> Relaxed(g, dist, x)
    ensures Walks.Closed(Links(g), R)
  {
    forall l, a, b | l in Links(g) && Walks.Joins(l, a, b) && a in R
      ensures b in R && R[b] <= R[a] + l.w
    {
      var e :| e in g.edges && e.ToLink() == l;
      assert Node(a) in rank;
      NeighbourJoins(e, Node(a), Node(b));
      assert Touches(e, Node(a));
      assert RelaxedEdge(dist, Node(a), e);
      assert Node(b) in rank;
    }
  }

  /** Tight precursor links between settled nodes stay tight in the reached
      labelling. */
  lemma DoneTight(g: Graph, dist: map<Node, int>, prev: map<Node, Option<Node>>, rank: map<Node, nat>, r: DijkstraResult)
    requires r.precursors == prev
    requires forall v :: v in rank ==> v in dist && v.id in Reached(r) && Reached(r)[v.id] == dist[v]
    requires PrevTight(g, dist, prev) && PrevRanked(prev, rank)
    requires forall v {:trigger prev[v]} :: v in prev && prev[v].Some? ==> v in rank
    ensures forall v {:trigger r.precursors[v]} :: v in r.precursors && r.precursors[v].Some? ==>
      TightLink(g, r, r.precursors[v].value, v)
  {
    forall v | v in prev && prev[v].Some? ensures TightLink(g, r, prev[v].value, v) {
      var e :| e in g.edges && Walks.Joins(e.ToLink(), prev[v].value.id, v.id) && dist[v] == dist[prev[v].value] + e.weight;
    }
  }

  /** Precursors ranked before their successors root every backward walk
      within as many links as the universe has nodes. */
  lemma DoneRooted(g: Graph, s: Node, prev: map<Node, Option<Node>>, rank: map<Node, nat>)
    requires PrevRanked(prev, rank) && rank.Keys <= Universe(g, s)
    requires forall v {:trigger rank[v]} :: v in rank ==> rank[v] < |rank|
    ensures forall v :: v in prev ==> Rooted(prev, v, |Universe(g, s)|)
  {
    SubsetCard(rank.Keys, Universe(g, s));
    forall v | v in prev ensures Rooted(prev, v, |Universe(g, s)|) {
      if prev[v].Some? {
        RankedRooted(prev, rank, prev[v].value, |Universe(g, s)| - 1);
      }
    }
  }

  /** Once the frontier is empty, the maps, with the start filtered out of
      the distances, make a finished result. */
  lemma RoundsDone(g: Graph, s: Node, w: int, dist: map<Node, int>, prev: map<Node, Option<Node>>,
                   rank: map<Node, nat>, last: int, r: DijkstraResult)
    requires Weights(g, s, w)
    requires Round(g, s, w, dist, prev, [], rank, last)
    requires r == DijkstraResult(s, map k | k in dist && k.id != s.id :: dist[k], prev)
    ensures Finished(g, r)
  {
    assert s in rank;
    DoneSettled(dist, rank);
    DoneShape(g, s, dist, prev, r);
    DoneReached(s, w, dist, prev, rank, r);
    DoneClosed(g, w, dist, rank, Reached(r));
    assert forall v {:trigger prev[v]} :: v in prev && prev[v].Some? ==> v in rank by {
      forall v | v in prev && prev[v].Some? ensures v in rank {
        assert v != s && dist[v] < INT_MAX;
      }
    }
    DoneTight(g, dist, prev, rank, r);
    DoneRooted(g, s, prev, rank);
  }

  /** `dijkstra` (Graph.kt lines 39-89). */
  method Dijkstra(g: Graph, start: Node) returns (r: DijkstraResult)
    requires forall e :: e in g.edges ==> 0 <= e.weight
    requires |Universe(g, start)| * MaxWeight(g.edges) < INT_MAX
    ensures r.source == start
    ensures Finished(g, r)
  {
    var dist, prev, queue, settled := Setup(g, start);
    ghost var w := MaxWeight(g.edges);
    ghost var rank: map<Node, nat> := map[];
    ghost var last := 0;
    TimesIsProduct(|Universe(g, start)|, w);
    assert Weights(g, start, w);
    SetupRound(g, start, w, dist, prev, queue);
    while queue != []
      invariant Weights(g, start, w)
      invariant Round(g, start, w, dist, prev, queue, rank, last)
      invariant forall v :: v in settled <==> v in rank
      decreases |Universe(g, start) - rank.Keys|, |queue|
    {
      var active := queue[MinBy(queue)];
      ghost var queue0, rank0 := queue, rank;
      MinByLeast(queue0);
      queue := RemoveFirst(queue, active);
      RemoveFirstMembers(queue0, active);
      var es := UnsettledNeighbourEdges(g.edges, active.0, settled);
      UnsettledRanked(g, active.0, settled, rank);
      ghost var unsettled := active.0 !in rank;
      if unsettled {
        FreshPop(g, start, w, dist, prev, queue0, rank, last, active, queue, es);
        SettleShrinks(Universe(g, start), rank, active.0, |rank|);
        rank := rank[active.0 := |rank|];
      } else {
        StalePop(g, start, w, dist, prev, queue0, rank, last, active, queue, es);
      }
      ghost var dist1, prev1, queue1 := dist, prev, queue;
      dist, prev, queue := RelaxNeighbours(active, es, dist, prev, queue);
      settled := settled + [active.0];
      if unsettled {
        FreshRound(g, start, w, dist1, prev1, queue1, rank, es, active);
        last := active.1;
      }
    }
    r := DijkstraResult(start, map k | k in dist && k.id != start.id :: dist[k], prev);
    RoundsDone(g, start, w, dist, prev, rank, last, r);
  }
}
