/** The data model of the Rust implementation (rust/src/model.rs): node and
    edge records, the graph with its adjacency lookup, the `ResultSet` that
    Dijkstra fills in, the backward walk that rebuilds a route from it, and
    the comma-separated display of a route. */
module RustModel {
  import opened Wrappers
  import Walks

  /** `u32::MAX`, also the sentinel for "not reached yet". */
  const U32_MAX: int := 0xFFFF_FFFF

  type U32 = x: int | 0 <= x <= U32_MAX

  type NodeId = U32

  /** What stops a Rust run: a key missing from a map (a failed `unwrap` or
      map index) or a `u32` addition that overflows. */
  datatype Panic = MissingKey(id: NodeId) | AddOverflow(lhs: U32, rhs: U32)

  datatype Node = Node(id: NodeId)

  datatype Edge = Edge(nodes_ids: (NodeId, NodeId), weight: U32) {

    /** The edge has `id` as one of its two endpoints. */
    predicate Contains(id: NodeId) {
      nodes_ids.0 == id || nodes_ids.1 == id
    }

    /** The endpoint at the other end from `another_id`, or `another_id`
        itself when the edge does not touch it. */
    function GetNeighbourNodeId(another_id: NodeId): (r: NodeId)
      ensures !Contains(another_id) ==> r == another_id
      ensures Contains(another_id) <==> multiset{another_id, r} == multiset{nodes_ids.0, nodes_ids.1}
    {
      if !Contains(another_id) then another_id
      else if nodes_ids.1 == another_id then nodes_ids.0
      else nodes_ids.1
    }

    /** The edge as an undirected link of the shared walk theory. */
    function ToLink(): Walks.Link {
      Walks.Link(nodes_ids.0, nodes_ids.1, weight)
    }
  }

  /** `Contains` holds exactly for the endpoints of the edge's link. */
  lemma ContainsIsEndpoint(e: Edge, id: NodeId)
    ensures e.Contains(id) <==> exists y :: Walks.Joins(e.ToLink(), id, y)
  {
    if e.Contains(id) {
      assert Walks.Joins(e.ToLink(), id, e.GetNeighbourNodeId(id));
    }
  }

  /** Following an edge from one of its endpoints is exactly taking its link:
      the neighbour found is the vertex the link joins `x` to. */
  lemma NeighbourJoins(e: Edge, x: NodeId, y: int)
    ensures Walks.Joins(e.ToLink(), x, y) <==> e.Contains(x) && e.GetNeighbourNodeId(x) == y
  {
  }

  /** For an edge between two distinct nodes, stepping to the neighbour twice
      comes back to where one started. */
  lemma NeighbourInvolution(e: Edge, x: NodeId)
    requires e.Contains(x) && e.nodes_ids.0 != e.nodes_ids.1
    ensures e.GetNeighbourNodeId(x) != x
    ensures e.GetNeighbourNodeId(e.GetNeighbourNodeId(x)) == x
  {
  }

  datatype Graph = Graph(nodes: set<Node>, edges: set<Edge>) {

    /** All edges touching `node_id`, each once, in the set's iteration
        order (left open: any order may come out). */
    method GetAllNeighbourEdges(node_id: NodeId) returns (result: seq<Edge>)
      ensures forall e :: e in result <==> e in edges && e.Contains(node_id)
      ensures forall i, j :: 0 <= i < j < |result| ==> result[i] != result[j]
    {
      result := [];
      var rest := edges;
      while rest != {}
        invariant rest <= edges
        invariant forall e :: e in result <==> e in edges - rest && e.Contains(node_id)
        invariant forall i, j :: 0 <= i < j < |result| ==> result[i] != result[j]
        decreases rest
      {
        var item :| item in rest;
        if item.Contains(node_id) {
          result := result + [item];
        }
        rest := rest - {item};
      }
    }
  }

  /** The ids of a set of nodes. */
  function Ids(nodes: set<Node>): set<NodeId> {
    set k: NodeId | 0 <= k <= U32_MAX && Node(k) in nodes
  }

  /** An id belongs to a set of nodes exactly when its node does. */
  lemma IdsMember(nodes: set<Node>)
    ensures forall k :: k in Ids(nodes) <==> Node(k) in nodes
  {
    forall k | Node(k) in nodes ensures k in Ids(nodes) {
      assert Node(k).id == k;
    }
  }

  /** The graph's edges as links. */
  ghost function Links(g: Graph): set<Walks.Link> {
    set e | e in g.edges :: e.ToLink()
  }

  /** A link of the graph is the link of one of its edges. */
  lemma LinkOfEdge(g: Graph, l: Walks.Link)
    requires l in Links(g)
    ensures exists e :: e in g.edges && e.ToLink() == l
  {
  }

  /** The backward walk from `t` through `prev` stops within `steps` steps:
      at a node without a predecessor, or at a node missing from `prev`
      (where indexing the map panics). */
  ghost predicate Halts(prev: map<NodeId, Option<NodeId>>, t: NodeId, steps: nat)
    decreases steps
  {
    t !in prev || prev[t].None? || (steps > 0 && Halts(prev, prev[t].value, steps - 1))
  }

  /** The stronger form: the walk reaches a node without predecessor within
      `steps` steps and every node on it is a key of `prev`. */
  ghost predicate Rooted(prev: map<NodeId, Option<NodeId>>, t: NodeId, steps: nat)
    decreases steps
  {
    t in prev && (prev[t].None? || (steps > 0 && Rooted(prev, prev[t].value, steps - 1)))
  }

  /** The predecessors of `t`, farthest first, or the panic of a missing key. */
  ghost function Ancestors(prev: map<NodeId, Option<NodeId>>, t: NodeId, steps: nat): Result<seq<NodeId>, Panic>
    requires Halts(prev, t, steps)
    decreases steps
  {
    if t !in prev then Failure(MissingKey(t))
    else match prev[t]
      case None => Success([])
      case Some(p) =>
        match Ancestors(prev, p, steps - 1)
        case Success(a) => Success(a + [p])
        case Failure(err) => Failure(err)
  }

  /** `c` follows `prev` link by link: it starts at a node without
      predecessor and each node is the predecessor of the next. */
  ghost predicate PrevChain(prev: map<NodeId, Option<NodeId>>, c: seq<NodeId>) {
    && |c| >= 1
    && (forall i :: 0 <= i < |c| ==> c[i] in prev)
    && prev[c[0]] == None
    && forall i :: 0 <= i < |c| - 1 ==> prev[c[i + 1]] == Some(c[i])
  }

  /** A successful backward walk yields the predecessor chain ending at `t`. */
  lemma {:induction false} AncestorsAreChain(prev: map<NodeId, Option<NodeId>>, t: NodeId, steps: nat)
    requires Halts(prev, t, steps) && Ancestors(prev, t, steps).Success?
    ensures PrevChain(prev, Ancestors(prev, t, steps).value + [t])
    decreases steps
  {
    match prev[t]
    case None =>
    case Some(p) =>
      AncestorsAreChain(prev, p, steps - 1);
      var a := Ancestors(prev, p, steps - 1).value;
      assert Ancestors(prev, t, steps).value + [t] == (a + [p]) + [t];
  }

  /** Conversely, every predecessor chain ending at `t` is what the backward
      walk yields, so the chain is unique. */
  lemma {:induction false} ChainIsAncestors(prev: map<NodeId, Option<NodeId>>, c: seq<NodeId>, steps: nat)
    requires PrevChain(prev, c) && Halts(prev, c[|c| - 1], steps)
    ensures Ancestors(prev, c[|c| - 1], steps) == Success(c[..|c| - 1])
    decreases steps
  {
    var n := |c|;
    if n > 1 {
      var c' := c[..n - 1];
      assert prev[c[n - 1]] == Some(c[n - 2]);
      assert PrevChain(prev, c');
      ChainIsAncestors(prev, c', steps - 1);
      assert c'[..n - 2] + [c[n - 2]] == c[..n - 1];
    }
  }

  /** A rooted walk never panics. */
  lemma {:induction false} RootedHalts(prev: map<NodeId, Option<NodeId>>, t: NodeId, steps: nat)
    requires Rooted(prev, t, steps)
    ensures Halts(prev, t, steps) && Ancestors(prev, t, steps).Success?
    decreases steps
  {
    if prev[t].Some? {
      RootedHalts(prev, prev[t].value, steps - 1);
    }
  }

  /** The distances and predecessors that Dijkstra fills in. */
  class ResultSet {
    var distances: map<NodeId, Option<U32>>
    var prev: map<NodeId, Option<NodeId>>

    /** `ResultSet::default()`: both maps empty. */
    constructor ()
      ensures distances == map[] && prev == map[]
    {
      distances := map[];
      prev := map[];
    }

    /** The stored distance, `None` read as `u32::MAX`; a missing id panics. */
    function GetDistance(id: NodeId): (r: Result<U32, Panic>)
      reads this
      ensures r.Failure? <==> id !in distances
      ensures r.Failure? ==> r.error == MissingKey(id)
      ensures r.Success? ==> (distances[id] == Some(r.value) || (distances[id] == None && r.value == U32_MAX))
    {
      if id !in distances then Failure(MissingKey(id))
      else match distances[id]
        case None => Success(U32_MAX)
        case Some(distance) => Success(distance)
    }

    method SetDistance(id: NodeId, distance: U32)
      modifies this
      ensures distances == old(distances)[id := Some(distance)]
      ensures prev == old(prev)
    {
      distances := distances[id := Some(distance)];
    }

    method SetPrev(id: NodeId, p: NodeId)
      modifies this
      ensures prev == old(prev)[id := Some(p)]
      ensures distances == old(distances)
    {
      prev := prev[id := Some(p)];
    }

    /** Pushes the predecessors of `target_id` to the front of `path`,
        farthest first; `path` is returned as the deque ends up. */
    method GetPathRecursive(target_id: NodeId, path: seq<NodeId>, ghost steps: nat) returns (r: Result<seq<NodeId>, Panic>)
      requires Halts(prev, target_id, steps)
      ensures match Ancestors(prev, target_id, steps)
        case Success(a) => r == Success(a + path)
        case Failure(err) => r == Failure(err)
      decreases steps
    {
      if target_id !in prev {
        return Failure(MissingKey(target_id));
      }
      match prev[target_id]
      case None =>
        r := Success(path);
        assert [] + path == path;
      case Some(prev_id) =>
        r := GetPathRecursive(prev_id, [prev_id] + path, steps - 1);
        match Ancestors(prev, prev_id, steps - 1)
        case Success(a) => assert a + ([prev_id] + path) == (a + [prev_id]) + path;
        case Failure(_) =>
    }

    /** The route to `target_id`: its predecessors, then `path`'s old
        contents, then `target_id` at the back. */
    method GetPath(target_id: NodeId, path: seq<NodeId>, ghost steps: nat) returns (r: Result<seq<NodeId>, Panic>)
      requires Halts(prev, target_id, steps)
      ensures match Ancestors(prev, target_id, steps)
        case Success(a) => r == Success(a + path + [target_id])
        case Failure(err) => r == Failure(err)
    {
      var front := GetPathRecursive(target_id, path, steps);
      match front
      case Success(p) => r := Success(p + [target_id]);
      case Failure(err) => r := Failure(err);
    }
  }

  /** The character of a decimal digit. */
  function DigitChar(d: nat): (c: char)
    requires d < 10
    ensures '0' <= c <= '9'
  {
    (48 + d) as char
  }

  /** The value of a decimal digit character (0 for any other character). */
  function DigitValue(c: char): nat {
    if '0' <= c <= '9' then c as int - 48 else 0
  }

  /** `n` written in decimal without leading zeros, as `format!("{}", n)`
      writes a `u32`. */
  function DecimalString(n: nat): (s: string)
    ensures |s| >= 1
    ensures forall i :: 0 <= i < |s| ==> '0' <= s[i] <= '9'
  {
    if n < 10 then [DigitChar(n)] else DecimalString(n / 10) + [DigitChar(n % 10)]
  }

  /** The number a string of decimal digits denotes. */
  function DecimalValue(s: string): nat {
    if s == [] then 0 else 10 * DecimalValue(s[..|s| - 1]) + DigitValue(s[|s| - 1])
  }

  /** Reading a written number back gives the number. */
  lemma {:induction false} DecimalRoundTrip(n: nat)
    ensures DecimalValue(DecimalString(n)) == n
  {
    if n >= 10 {
      DecimalRoundTrip(n / 10);
      var s := DecimalString(n);
      assert s[..|s| - 1] == DecimalString(n / 10);
    }
  }

  /** The ids in decimal, separated by single commas: the text
      `VcWrapper` displays. */
  function JoinIds(ids: seq<NodeId>): (s: string)
    ensures |s| == 0 <==> |ids| == 0
  {
    if |ids| == 0 then ""
    else if |ids| == 1 then DecimalString(ids[0])
    else JoinIds(ids[..|ids| - 1]) + "," + DecimalString(ids[|ids| - 1])
  }

  /** The comma-separated fields of `s` (splitting "" gives one empty field). */
  function Fields(s: string): (r: seq<string>)
    ensures |r| >= 1
  {
    if s == [] then [""]
    else
      var r := Fields(s[..|s| - 1]);
      if s[|s| - 1] == ',' then r + [""] else r[..|r| - 1] + [r[|r| - 1] + [s[|s| - 1]]]
  }

  /** The numbers a displayed route lists. */
  function ParseIds(s: string): seq<nat> {
    if s == "" then []
    else
      var f := Fields(s);
      seq(|f|, i requires 0 <= i < |f| => DecimalValue(f[i]))
  }

  /** A string without commas is a single field. */
  lemma {:induction false} FieldsWithoutComma(b: string)
    requires ',' !in b
    ensures Fields(b) == [b]
    decreases |b|
  {
    if b != [] {
      FieldsWithoutComma(b[..|b| - 1]);
      assert b[..|b| - 1] + [b[|b| - 1]] == b;
    }
  }

  /** A comma followed by comma-free text adds exactly one field. */
  lemma {:induction false} FieldsAfterComma(a: string, b: string)
    requires ',' !in b
    ensures Fields(a + [','] + b) == Fields(a) + [b]
    decreases |b|
  {
    if b == [] {
      assert (a + [','] + b)[..|a|] == a;
    } else {
      var b' := b[..|b| - 1];
      FieldsAfterComma(a, b');
      assert (a + [','] + b)[..|a| + 1 + |b'|] == a + [','] + b';
      assert b' + [b[|b| - 1]] == b;
    }
  }

  /** The decimal forms of the ids, in order. */
  function Decimals(ids: seq<NodeId>): (r: seq<string>)
    ensures |r| == |ids| && forall i :: 0 <= i < |ids| ==> r[i] == DecimalString(ids[i])
  {
    if ids == [] then [] else Decimals(ids[..|ids| - 1]) + [DecimalString(ids[|ids| - 1])]
  }

  /** A decimal form holds no comma. */
  lemma DecimalNoComma(n: nat)
    ensures ',' !in DecimalString(n)
  {
  }

  /** A route of two or more ids displays as its prefix, a comma and its last id. */
  lemma JoinSnoc(ids: seq<NodeId>)
    requires |ids| >= 2
    ensures JoinIds(ids) == JoinIds(ids[..|ids| - 1]) + [','] + DecimalString(ids[|ids| - 1])
  {
  }

  /** The decimal forms of a non-empty route end with its last id's. */
  lemma DecimalsSnoc(ids: seq<NodeId>)
    requires |ids| >= 1
    ensures Decimals(ids) == Decimals(ids[..|ids| - 1]) + [DecimalString(ids[|ids| - 1])]
  {
  }

  /** The fields of a displayed route are the ids' decimal forms. */
  lemma {:induction false} FieldsOfJoin(ids: seq<NodeId>)
    requires |ids| >= 1
    ensures Fields(JoinIds(ids)) == Decimals(ids)
  {
    var n := |ids|;
    DecimalNoComma(ids[n - 1]);
    if n == 1 {
      FieldsWithoutComma(DecimalString(ids[0]));
    } else {
      var init, d := ids[..n - 1], DecimalString(ids[n - 1]);
      calc {
        Fields(JoinIds(ids));
        { JoinSnoc(ids); }
        Fields(JoinIds(init) + [','] + d);
        { FieldsAfterComma(JoinIds(init), d); }
        Fields(JoinIds(init)) + [d];
        { FieldsOfJoin(init); }
        Decimals(init) + [d];
        { DecimalsSnoc(ids); }
        Decimals(ids);
      }
    }
  }

  /** Parsing the displayed text gives back the route: the ids are joined by
      single commas with nothing before the first or after the last. */
  lemma DisplayRoundTrip(ids: seq<NodeId>)
    ensures ParseIds(JoinIds(ids)) == ids
  {
    if |ids| >= 1 {
      FieldsOfJoin(ids);
      forall i | 0 <= i < |ids|
        ensures ParseIds(JoinIds(ids))[i] == ids[i]
      {
        DecimalRoundTrip(ids[i]);
      }
    }
  }

  /** A route wrapped for display. */
  datatype VcWrapper = VcWrapper(ids: seq<NodeId>) {

    /** `fmt`: each id is appended after a comma, except the first, which
        starts the text. */
    method Fmt() returns (s: string)
      ensures s == JoinIds(ids)
    {
      var tmp := "";
      for i := 0 to |ids|
        invariant tmp == JoinIds(ids[..i])
      {
        assert ids[..i + 1][..i] == ids[..i];
        if tmp == [] {
          tmp := DecimalString(ids[i]);
        } else {
          tmp := tmp + "," + DecimalString(ids[i]);
        }
      }
      assert ids[..|ids|] == ids;
      s := tmp;
    }
  }
}
