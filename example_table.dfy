/** The nine-node example graph both implementations ship (the Kotlin
    `createExampleInstance` and the Rust `Graph::default`): the shortest
    distance from node 1 its tests expect for each node, and the parent of
    each node on its unique shortest route. */
module ExampleTable {

  /** The distance from node 1 the tests expect for node `i`, node 1 itself
      at 0. */
  function ExpectedDistance(i: int): int
    requires 1 <= i <= 9
  {
    if i == 1 then 0 else if i == 2 then 2 else if i == 3 then 6 else if i == 4 then 7
    else if i == 5 then 6 else if i == 6 then 7 else if i == 7 then 3 else if i == 8 then 4 else 6
  }

  /** The expected distances, by id. */
  const Expected: map<int, int> := map i | 1 <= i <= 9 :: ExpectedDistance(i)

  /** The neighbour of node `i` on its unique shortest route from node 1. */
  function Parent(i: int): int
    requires 2 <= i <= 9
  {
    if i == 2 then 1 else if i == 3 then 2 else if i == 4 then 5 else if i == 5 then 8
    else if i == 6 then 1 else if i == 7 then 1 else if i == 8 then 7 else 7
  }

  /** A parent is a different node, nearer to node 1. */
  lemma ParentNearer(i: int)
    requires 2 <= i <= 9
    ensures 1 <= Parent(i) <= 9 && Parent(i) != i && 0 <= ExpectedDistance(Parent(i)) < ExpectedDistance(i)
  {
  }
}
