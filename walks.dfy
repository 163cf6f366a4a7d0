/** Walks over an undirected weighted graph given as a set of links, and the
    bound that a closed labelling puts on the weight of every walk. Both
    implementations are stated against these definitions. */
module Walks {

  /** One undirected connection between `a` and `b` of weight `w`. */
  datatype Link = Link(a: int, b: int, w: int)

  /** `l` connects `x` and `y`, in either direction. */
  predicate Joins(l: Link, x: int, y: int) {
    (l.a == x && l.b == y) || (l.a == y && l.b == x)
  }

  /** `vs` is a walk through the graph `g`, `ls[i]` being the link taken
      from `vs[i]` to `vs[i + 1]`. */
  ghost predicate IsWalk(g: set<Link>, vs: seq<int>, ls: seq<Link>) {
    && |vs| == |ls| + 1
    && forall i :: 0 <= i < |ls| ==> ls[i] in g && Joins(ls[i], vs[i], vs[i + 1])
  }

  /** Total weight of the links taken, added up from the front. */
  function Weight(ls: seq<Link>): int {
    if ls == [] then 0 else Weight(ls[..|ls| - 1]) + ls[|ls| - 1].w
  }

  /** A walk from `s` to `t` exists. */
  ghost predicate Reachable(g: set<Link>, s: int, t: int) {
    exists vs, ls :: IsWalk(g, vs, ls) && vs[0] == s && vs[|vs| - 1] == t
  }

  /** No link lets a labelled vertex undercut its neighbour's label: the
      neighbour is labelled too, at most the label plus the link's weight. */
  ghost predicate Closed(g: set<Link>, pot: map<int, int>) {
    forall l, x, y :: l in g && Joins(l, x, y) && x in pot ==> y in pot && pot[y] <= pot[x] + l.w
  }

  /** Extending a walk by one link at its end. */
  lemma {:induction false} WalkSnoc(g: set<Link>, vs: seq<int>, ls: seq<Link>, l: Link, y: int)
    requires IsWalk(g, vs, ls) && l in g && Joins(l, vs[|vs| - 1], y)
    ensures IsWalk(g, vs + [y], ls + [l])
    ensures Weight(ls + [l]) == Weight(ls) + l.w
  {
    assert (ls + [l])[..|ls|] == ls;
    forall i | 0 <= i < |ls| + 1
      ensures (ls + [l])[i] in g && Joins((ls + [l])[i], (vs + [y])[i], (vs + [y])[i + 1])
    {
      if i < |ls| {
        assert (ls + [l])[i] == ls[i] && (vs + [y])[i] == vs[i] && (vs + [y])[i + 1] == vs[i + 1];
      }
    }
  }

  /** Every walk weighs at least the rise in a closed labelling along it:
      the lower-bound half of shortest-path optimality. */
  lemma {:induction false} WalkBound(g: set<Link>, pot: map<int, int>, vs: seq<int>, ls: seq<Link>)
    requires Closed(g, pot) && IsWalk(g, vs, ls) && vs[0] in pot
    ensures vs[|vs| - 1] in pot && pot[vs[|vs| - 1]] <= pot[vs[0]] + Weight(ls)
    decreases |ls|
  {
    if ls != [] {
      var n := |ls|;
      assert IsWalk(g, vs[..n], ls[..n - 1]);
      WalkBound(g, pot, vs[..n], ls[..n - 1]);
      assert vs[..n][n - 1] == vs[n - 1];
      assert ls[n - 1] in g && Joins(ls[n - 1], vs[n - 1], vs[n]);
    }
  }
}
