/** The graph of the Kotlin implementation (kotlin/src/main/kotlin/Graph.kt)
    and the pieces `dijkstra` is built from: the edge lookup, the list
    operations on its frontier, and the backward walk that rebuilds a route
    from the precursor map. */
module KotlinGraph {
  import opened Wrappers
  import opened KotlinData
  import Walks

  /** The graph: its nodes and its undirected weighted edges, both lists. */
  datatype Graph = Graph(nodes: seq<Node>, edges: seq<Edge>)

  /** Kotlin's `filter`: the elements `keep` accepts, in their order. */
  function Filter<T(==,!new)>(s: seq<T>, keep: T -> bool): (r: seq<T>)
  {
    if s == [] then []
    else
      var n := |s|;
      var r := Filter(s[..n - 1], keep);
      if keep(s[n - 1]) then r + [s[n - 1]] else r
  }

  /** Filtering keeps every accepted element as often as it occurs and
      drops every other. */
  lemma {:induction false} FilterCount<T(!new)>(s: seq<T>, keep: T -> bool)
    ensures forall x :: multiset(Filter(s, keep))[x] == if keep(x) then multiset(s)[x] else 0
  {
    if s != [] {
      var n := |s|;
      assert s == s[..n - 1] + [s[n - 1]];
      FilterCount(s[..n - 1], keep);
    }
  }

  /** Filtering a concatenation filters each part: the kept elements stay
      in their original order. */
  lemma {:induction false} FilterAppend<T(!new)>(a: seq<T>, b: seq<T>, keep: T -> bool)
    ensures Filter(a + b, keep) == Filter(a, keep) + Filter(b, keep)
    decreases |b|
  {
    if b == [] {
      assert a + b == a;
    } else {
      var n := |b|;
      var ab := a + b;
      assert ab[..|ab| - 1] == a + b[..n - 1];
      assert ab[|ab| - 1] == b[n - 1];
      FilterAppend(a, b[..n - 1], keep);
    }
  }

  /** The edge has an endpoint with `node`'s id. */
  predicate Touches(e: Edge, node: Node) {
    e.nodesPair.0.id == node.id || e.nodesPair.1.id == node.id
  }

  /** `getAllNeighboursEdges`: the edges touching `node`, each as often as
      it is listed, in the list's order. */
  function GetAllNeighboursEdges(edges: seq<Edge>, node: Node): (r: seq<Edge>)
    ensures forall e :: e in r <==> e in edges && Touches(e, node)
    ensures forall e :: multiset(r)[e] == if Touches(e, node) then multiset(edges)[e] else 0
  {
    var r := Filter(edges, e => Touches(e, node));
    FilterCount(edges, e => Touches(e, node));
    assert forall e :: e in r <==> e in multiset(r);
    r
  }

  /** An edge touches a node exactly when the neighbour lookup finds the
      other end. */
  lemma TouchesHasNeighbour(e: Edge, node: Node)
    ensures Touches(e, node) <==> GetNeighbourNode(e.nodesPair, node).Some?
  {
  }

  /** A frontier entry: a node and the distance it was reached with. */
  type Entry = (Node, int)

  /** `queue.minBy { it.second }`: the position of the first entry of least
      distance. */
  function MinBy(queue: seq<Entry>): (i: nat)
    requires |queue| > 0
    ensures i < |queue|
    ensures forall j :: 0 <= j < |queue| ==> queue[i].1 <= queue[j].1
    ensures forall j :: 0 <= j < i ==> queue[i].1 < queue[j].1
  {
    if |queue| == 1 then 0
    else
      var m := MinBy(queue[..|queue| - 1]);
      if queue[|queue| - 1].1 < queue[m].1 then |queue| - 1 else m
  }

  /** The entry `minBy` picks is listed and no listed entry is nearer. */
  lemma MinByLeast(queue: seq<Entry>)
    requires |queue| > 0
    ensures queue[MinBy(queue)] in queue
    ensures forall p :: p in queue ==> queue[MinBy(queue)].1 <= p.1
  {
    forall p | p in queue ensures queue[MinBy(queue)].1 <= p.1 {
      var j :| 0 <= j < |queue| && queue[j] == p;
    }
  }

  /** `queue.remove(x)`: drops the first entry equal to `x`, if there is one. */
  function RemoveFirst(q: seq<Entry>, x: Entry): (r: seq<Entry>)
    ensures multiset(r) == multiset(q) - multiset{x}
    ensures |r| == if x in q then |q| - 1 else |q|
  {
    if q == [] then []
    else
      assert q == [q[0]] + q[1..];
      if q[0] == x then q[1..] else [q[0]] + RemoveFirst(q[1..], x)
  }

  /** Removal keeps every other entry and adds none. */
  lemma RemoveFirstMembers(q: seq<Entry>, x: Entry)
    ensures forall y :: y in RemoveFirst(q, x) ==> y in q
    ensures forall y :: y in q && y != x ==> y in RemoveFirst(q, x)
  {
    var r := RemoveFirst(q, x);
    assert forall y :: y in r <==> y in multiset(r);
    assert forall y :: y in q <==> y in multiset(q);
  }

  /** Removing the entry at a position where it occurs for the first time
      closes the gap and keeps the order of the rest. */
  lemma {:induction false} RemoveFirstAt(q: seq<Entry>, i: nat)
    requires i < |q| && q[i] !in q[..i]
    ensures RemoveFirst(q, q[i]) == q[..i] + q[i + 1..]
    decreases i
  {
    if i > 0 {
      var t := q[1..];
      assert q[..i] == [q[0]] + t[..i - 1];
      assert t[i - 1] == q[i] && t[i..] == q[i + 1..];
      assert q[0] != q[i] && t[i - 1] !in t[..i - 1] by {
        assert q[..i][0] == q[0];
        assert forall y :: y in t[..i - 1] ==> y in q[..i];
      }
      RemoveFirstAt(t, i - 1);
      calc {
        RemoveFirst(q, q[i]);
        [q[0]] + RemoveFirst(t, q[i]);
        [q[0]] + (t[..i - 1] + t[i..]);
        q[..i] + q[i + 1..];
      }
    }
  }

  /** The entry `minBy` picks is the first of its kind, so `remove` takes
      out exactly that position. */
  lemma MinByIsFirst(queue: seq<Entry>)
    requires |queue| > 0
    ensures queue[MinBy(queue)] !in queue[..MinBy(queue)]
  {
  }

  /** `precursors[t]`: `null` both when `t` is no key and when it maps to `null`. */
  function Precursor(precursors: map<Node, Option<Node>>, t: Node): Option<Node> {
    if t in precursors then precursors[t] else None
  }

  /** The backward walk from `t` returns within `steps` calls: it reaches a
      node without precursor or a node that is its own precursor. */
  ghost predicate Halts(precursors: map<Node, Option<Node>>, t: Node, steps: nat)
    decreases steps
  {
    match Precursor(precursors, t)
    case None => true
    case Some(p) => p == t || (steps > 0 && Halts(precursors, p, steps - 1))
  }

  /** The nodes the backward walk from `t` puts in front of the deque, front
      first: `t` alone when it has no precursor, `t` twice when it is its own
      precursor, and otherwise the route to the precursor followed by `t`. */
  ghost function Route(precursors: map<Node, Option<Node>>, t: Node, steps: nat): (r: seq<Node>)
    requires Halts(precursors, t, steps)
    ensures |r| >= 1 && r[|r| - 1] == t
    decreases steps
  {
    match Precursor(precursors, t)
    case None => [t]
    case Some(p) => if p == t then [t, t] else Route(precursors, p, steps - 1) + [t]
  }

  /** `reconstructFullPathFromPreviousNode`: pushes `target` (when it has a
      precursor) and recurses on the precursor; at a node without one, or
      that is its own, pushes it once more and returns the deque. */
  method ReconstructFullPathFromPreviousNode(target: Node, precursors: map<Node, Option<Node>>, path: seq<Node>,
                                             ghost steps: nat) returns (r: seq<Node>)
    requires Halts(precursors, target, steps)
    ensures r == Route(precursors, target, steps) + path
    decreases steps
  {
    var deque := path;
    var precursor := Precursor(precursors, target);
    if precursor.Some? {
      deque := [target] + deque;
    }
    if precursor.None? || precursor == Some(target) {
      deque := [target] + deque;
      return deque;
    }
    r := ReconstructFullPathFromPreviousNode(precursor.value, precursors, deque, steps - 1);
    assert Route(precursors, precursor.value, steps - 1) + ([target] + path)
        == (Route(precursors, precursor.value, steps - 1) + [target]) + path;
  }

  /** `c` follows the precursors link by link: its first node has none, and
      each node is the precursor of the next, which differs from it. */
  ghost predicate PrecursorChain(precursors: map<Node, Option<Node>>, c: seq<Node>) {
    && |c| >= 1
    && Precursor(precursors, c[0]) == None
    && forall i :: 0 <= i < |c| - 1 ==> Precursor(precursors, c[i + 1]) == Some(c[i]) && c[i] != c[i + 1]
  }

  /** The backward walk from `t` reaches a node without precursor within
      `steps` links, meeting no node that is its own precursor. */
  ghost predicate Rooted(precursors: map<Node, Option<Node>>, t: Node, steps: nat)
    decreases steps
  {
    match Precursor(precursors, t)
    case None => true
    case Some(p) => p != t && steps > 0 && Rooted(precursors, p, steps - 1)
  }

  /** A rooted walk halts and yields the precursor chain ending at `t`. */
  lemma {:induction false} RootedRoute(precursors: map<Node, Option<Node>>, t: Node, steps: nat)
    requires Rooted(precursors, t, steps)
    ensures Halts(precursors, t, steps) && PrecursorChain(precursors, Route(precursors, t, steps))
    decreases steps
  {
    match Precursor(precursors, t)
    case None =>
    case Some(p) =>
      RootedRoute(precursors, p, steps - 1);
      var c := Route(precursors, p, steps - 1);
      assert Route(precursors, t, steps) == c + [t];
      assert c[|c| - 1] == p;
  }

  /** Conversely, every precursor chain ending at `t` is the route the
      backward walk yields, so that route is the only such chain. */
  lemma {:induction false} ChainIsRoute(precursors: map<Node, Option<Node>>, c: seq<Node>, steps: nat)
    requires PrecursorChain(precursors, c) && Halts(precursors, c[|c| - 1], steps)
    ensures Route(precursors, c[|c| - 1], steps) == c
    decreases steps
  {
    var n := |c|;
    if n > 1 {
      var c' := c[..n - 1];
      assert Precursor(precursors, c[n - 1]) == Some(c[n - 2]);
      assert PrecursorChain(precursors, c');
      ChainIsRoute(precursors, c', steps - 1);
      assert c' + [c[n - 1]] == c;
    }
  }

  /** The endpoints of the edges, two per edge, in order. */
  function Endpoints(edges: seq<Edge>): (r: seq<Node>)
    ensures |r| == 2 * |edges|
  {
    if edges == [] then []
    else
      var n := |edges|;
      Endpoints(edges[..n - 1]) + [edges[n - 1].nodesPair.0, edges[n - 1].nodesPair.1]
  }

  /** Every endpoint of a listed edge is listed among the endpoints. */
  lemma {:induction false} EndpointsHold(edges: seq<Edge>, e: Edge)
    requires e in edges
    ensures e.nodesPair.0 in Endpoints(edges) && e.nodesPair.1 in Endpoints(edges)
  {
    var n := |edges|;
    if e != edges[n - 1] {
      assert e in edges[..n - 1];
      EndpointsHold(edges[..n - 1], e);
    }
  }

  /** The nodes a run can meet: the start, the listed nodes and the edges'
      endpoints. */
  ghost function Universe(g: Graph, start: Node): set<Node> {
    set v | v in [start] + g.nodes + Endpoints(g.edges)
  }

  /** A list holds at most as many distinct elements as entries. */
  lemma {:induction false} ListedCard<T>(s: seq<T>)
    ensures |set v | v in s| <= |s|
  {
    if s != [] {
      var t := s[..|s| - 1];
      ListedCard(t);
      assert s == t + [s[|s| - 1]];
      assert (set v | v in s) == (set v | v in t) + {s[|s| - 1]};
    }
  }

  /** A run meets at most the start, the listed nodes and two endpoints per edge. */
  lemma UniverseSize(g: Graph, start: Node)
    ensures |Universe(g, start)| <= 1 + |g.nodes| + 2 * |g.edges|
  {
    ListedCard([start] + g.nodes + Endpoints(g.edges));
  }

  /** No weight above `k` makes the largest weight at most `k`. */
  lemma MaxWeightAtMost(es: seq<Edge>, k: int)
    requires 0 <= k && forall e :: e in es ==> e.weight <= k
    ensures MaxWeight(es) <= k
  {
  }

  /** The largest edge weight, 0 when no weight is positive. */
  function MaxWeight(es: seq<Edge>): (m: int)
    ensures m >= 0 && forall e :: e in es ==> e.weight <= m
    ensures m > 0 ==> exists e :: e in es && e.weight == m
  {
    if es == [] then 0
    else
      var n := |es|;
      var m := MaxWeight(es[..n - 1]);
      assert forall e :: e in es ==> e in es[..n - 1] || e == es[n - 1];
      if es[n - 1].weight > m then es[n - 1].weight else m
  }

  /** The graph's edges as links. */
  ghost function Links(g: Graph): set<Walks.Link> {
    set e | e in g.edges :: e.ToLink()
  }
}
