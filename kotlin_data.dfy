/** The data of the Kotlin implementation (kotlin/src/main/kotlin/Data.kt):
    nodes, weighted edges between a pair of nodes, the neighbour lookup on
    a pair, and the result record of a Dijkstra run. */
module KotlinData {
  import opened Wrappers
  import Walks

  /** `Int.MAX_VALUE`, the distance of a node not reached yet. */
  const INT_MAX: int := 0x7FFF_FFFF

  /** A `data class` with the id as its only field: two nodes are equal
      exactly when their ids are. */
  datatype Node = Node(id: int)

  datatype Edge = Edge(nodesPair: (Node, Node), weight: int) {

    /** The edge as an undirected link of the shared walk theory. */
    function ToLink(): Walks.Link {
      Walks.Link(nodesPair.0.id, nodesPair.1.id, weight)
    }
  }

  /** The endpoint of `pair` opposite `node`, `null` (here `None`) when
      `node` is neither endpoint. The first endpoint is tested first, so a
      loop `(a, a)` leads from `a` back to `a`. */
  function GetNeighbourNode(pair: (Node, Node), node: Node): (r: Option<Node>)
    ensures r.None? <==> node.id != pair.0.id && node.id != pair.1.id
    ensures r.Some? ==> (node == pair.0 && r.value == pair.1) || (node == pair.1 && r.value == pair.0)
  {
    if node.id != pair.0.id && node.id != pair.1.id then None
    else if node.id == pair.0.id then Some(pair.1)
    else Some(pair.0)
  }

  /** The neighbour found is exactly a vertex the edge's link joins `node` to. */
  lemma NeighbourJoins(e: Edge, node: Node, other: Node)
    ensures GetNeighbourNode(e.nodesPair, node) == Some(other) <==> Walks.Joins(e.ToLink(), node.id, other.id)
  {
  }

  /** On a pair of distinct nodes, stepping to the neighbour twice comes
      back to where one started. */
  lemma NeighbourInvolution(pair: (Node, Node), node: Node)
    requires pair.0 != pair.1
    requires node == pair.0 || node == pair.1
    ensures GetNeighbourNode(pair, node).Some?
    ensures GetNeighbourNode(pair, GetNeighbourNode(pair, node).value) == Some(node)
  {
  }

  /** What a run of `dijkstra` returns: the start, the distances of all
      nodes but the start, and each node's predecessor (`None` for `null`). */
  datatype DijkstraResult = DijkstraResult(source: Node, distances: map<Node, int>, precursors: map<Node, Option<Node>>)
}
