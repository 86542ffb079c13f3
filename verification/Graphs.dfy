/** Walks, reachability and topological orders over a finite graph of named nodes. */
module Graphs {
  import opened Sequences

  /** The successors of every declared node; a name outside the map is an undeclared node. */
  type Graph = map<string, set<string>>

  function Next(g: Graph, a: string): set<string> {
    if a in g then g[a] else {}
  }

  predicate Walk(g: Graph, w: seq<string>) {
    w != [] && forall i | 0 <= i < |w| - 1 :: w[i + 1] in Next(g, w[i])
  }

  predicate ClosedWalk(g: Graph, w: seq<string>) {
    Walk(g, w) && |w| >= 2 && w[0] == w[|w| - 1]
  }

  ghost predicate Acyclic(g: Graph) {
    forall w :: !ClosedWalk(g, w)
  }

  ghost predicate WalkTo(g: Graph, roots: set<string>, w: seq<string>, target: string) {
    Walk(g, w) && w[0] in roots && w[|w| - 1] == target
  }

  /** Some walk leads from one of the roots to the target; a root reaches itself. */
  ghost predicate Reaches(g: Graph, roots: set<string>, target: string) {
    exists w :: WalkTo(g, roots, w, target)
  }

  lemma ReachesRoot(g: Graph, roots: set<string>, a: string)
    requires a in roots
    ensures Reaches(g, roots, a)
  {
    assert WalkTo(g, roots, [a], a);
  }

  lemma ReachesNext(g: Graph, roots: set<string>, a: string, b: string)
    requires Reaches(g, roots, a) && b in Next(g, a)
    ensures Reaches(g, roots, b)
  {
    var w :| WalkTo(g, roots, w, a);
    assert WalkTo(g, roots, w + [b], b);
  }

  ghost predicate ClosedUnder(g: Graph, s: set<string>) {
    forall a, b | a in s && b in Next(g, a) :: b in s
  }

  lemma {:induction false} ClosedContainsWalk(g: Graph, s: set<string>, w: seq<string>)
    requires ClosedUnder(g, s) && Walk(g, w) && w[0] in s
    ensures forall a | a in w :: a in s
  {
    if |w| > 1 {
      assert w[1] in Next(g, w[0]);
      ClosedContainsWalk(g, s, w[1..]);
      assert w == [w[0]] + w[1..];
    }
  }

  /** A closed set that holds the roots holds everything reachable from them. */
  lemma ClosedContainsReachable(g: Graph, roots: set<string>, s: set<string>)
    requires ClosedUnder(g, s) && roots <= s
    ensures forall a | Reaches(g, roots, a) :: a in s
  {
    forall a | Reaches(g, roots, a) ensures a in s {
      var w :| WalkTo(g, roots, w, a);
      ClosedContainsWalk(g, s, w);
    }
  }

  /** Every declared successor of an entry stands before it. */
  predicate SuccessorsFirst(g: Graph, order: seq<string>) {
    forall i | 0 <= i < |order| :: forall u | u in Next(g, order[i]) && u in g :: u in order[..i]
  }

  predicate TopologicalOrder(g: Graph, order: seq<string>) {
    Distinct(order) && ToSet(order) == g.Keys && SuccessorsFirst(g, order)
  }

  /** Position of a declared node in an order of all declared nodes. */
  function Position(g: Graph, order: seq<string>, a: string): nat
    requires TopologicalOrder(g, order) && a in g
    ensures Position(g, order, a) < |order| && order[Position(g, order, a)] == a
  {
    assert a in ToSet(order);
    IndexOf(order, a)
  }

  lemma EarlierSuccessor(g: Graph, order: seq<string>, a: string, b: string)
    requires TopologicalOrder(g, order) && a in g && b in g && b in Next(g, a)
    ensures Position(g, order, b) < Position(g, order, a)
  {
    var i := Position(g, order, a);
    assert b in order[..i];
    var j :| 0 <= j < i && order[j] == b;
    assert Position(g, order, b) == j;
  }

  /** Along a walk between declared nodes the position only falls. */
  lemma {:induction false} WalkDescends(g: Graph, order: seq<string>, w: seq<string>)
    requires TopologicalOrder(g, order) && Walk(g, w) && w[|w| - 1] in g
    ensures forall a | a in w :: a in g
    ensures |w| > 1 ==> Position(g, order, w[|w| - 1]) < Position(g, order, w[0])
  {
    if |w| > 1 {
      WalkDescends(g, order, w[1..]);
      assert w == [w[0]] + w[1..];
      assert w[1] in Next(g, w[0]) && w[0] in g && w[1] in w[1..];
      EarlierSuccessor(g, order, w[0], w[1]);
    }
  }

  /** A declared node stands after every declared node that it depends on, directly or not. */
  lemma DependencyStandsBefore(g: Graph, order: seq<string>, a: string, target: string)
    requires TopologicalOrder(g, order) && a in g && target in g
    requires Reaches(g, g[a], target)
    ensures Position(g, order, target) < Position(g, order, a)
  {
    var w :| WalkTo(g, g[a], w, target);
    WalkPrepend(g, a, w);
    WalkDescends(g, order, [a] + w);
  }

  lemma WalkPrepend(g: Graph, a: string, w: seq<string>)
    requires Walk(g, w) && w[0] in Next(g, a)
    ensures Walk(g, [a] + w)
  {
    var v := [a] + w;
    forall k | 0 <= k < |v| - 1 ensures v[k + 1] in Next(g, v[k]) {
      if k > 0 { assert v[k] == w[k - 1] && v[k + 1] == w[k]; }
    }
  }

  lemma TopologicalImpliesAcyclic(g: Graph, order: seq<string>)
    requires TopologicalOrder(g, order)
    ensures Acyclic(g)
  {
    forall w ensures !ClosedWalk(g, w) {
      if ClosedWalk(g, w) {
        assert w[1] in Next(g, w[0]);
        WalkDescends(g, order, w);
      }
    }
  }
}
