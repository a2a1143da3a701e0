// Directed graphs as the audit script builds them: a dictionary from a name to the list of names
// it points at.  A list may name nodes that are not in the dictionary; such edges do not count.
module Graphs {
  import opened Ordering

  type Node = string
  type Graph = map<Node, seq<Node>>

  predicate Edge(g: Graph, v: Node, w: Node) {
    v in g && w in g && w in g[v]
  }

  /** A non-empty sequence of nodes, each with an edge to the next. */
  ghost predicate Walk(g: Graph, p: seq<Node>) {
    && p != []
    && (forall i | 0 <= i < |p| :: p[i] in g)
    && (forall i | 0 <= i < |p| - 1 :: Edge(g, p[i], p[i + 1]))
  }

  ghost predicate WalkBetween(g: Graph, p: seq<Node>, a: Node, b: Node) {
    Walk(g, p) && p[0] == a && p[|p| - 1] == b
  }

  ghost predicate Reach(g: Graph, a: Node, b: Node) {
    exists p :: WalkBetween(g, p, a, b)
  }

  lemma ReachSelf(g: Graph, a: Node)
    requires a in g
    ensures Reach(g, a, a)
  {
    assert WalkBetween(g, [a], a, a);
  }

  lemma ReachEdge(g: Graph, a: Node, b: Node)
    requires Edge(g, a, b)
    ensures Reach(g, a, b)
  {
    assert WalkBetween(g, [a, b], a, b);
  }

  lemma ReachTransitive(g: Graph, a: Node, b: Node, c: Node)
    requires Reach(g, a, b) && Reach(g, b, c)
    ensures Reach(g, a, c)
  {
    var p :| WalkBetween(g, p, a, b);
    var q :| WalkBetween(g, q, b, c);
    assert WalkBetween(g, p + q[1..], a, c);
  }

  ghost predicate Closed(g: Graph, s: set<Node>) {
    forall x, y | x in s && Edge(g, x, y) :: y in s
  }

  lemma {:induction false} WalkStaysIn(g: Graph, s: set<Node>, p: seq<Node>)
    requires Closed(g, s) && Walk(g, p) && p[0] in s
    ensures p[|p| - 1] in s
    decreases |p|
  {
    if |p| > 1 {
      assert Edge(g, p[0], p[1]);
      WalkStaysIn(g, s, p[1..]);
    }
  }

  /** Nothing outside a closed set is reachable from inside it. */
  lemma ReachStaysIn(g: Graph, s: set<Node>, a: Node, b: Node)
    requires Closed(g, s) && a in s && Reach(g, a, b)
    ensures b in s
  {
    var p :| WalkBetween(g, p, a, b);
    WalkStaysIn(g, s, p);
  }

  /** A directed cycle without repeated nodes; the edge from its last node back to its first is implied. */
  ghost predicate ElementaryCycle(g: Graph, c: seq<Node>) {
    Walk(g, c) && Distinct(c) && Edge(g, c[|c| - 1], c[0])
  }

  ghost predicate ClosedWalk(g: Graph, p: seq<Node>) {
    Walk(g, p) && |p| > 1 && p[0] == p[|p| - 1]
  }

  /** A graph with any closed walk has an elementary cycle. */
  lemma {:induction false} ClosedWalkHasCycle(g: Graph, p: seq<Node>) returns (c: seq<Node>)
    requires ClosedWalk(g, p)
    ensures ElementaryCycle(g, c) && forall x | x in c :: x in p
    decreases |p|
  {
    c := p[..|p| - 1];
    if !Distinct(c) {
      var i, j :| 0 <= i < j < |c| && c[i] == c[j];
      c := ClosedWalkHasCycle(g, p[i..j + 1]);
    }
  }

  lemma CycleIsClosedWalk(g: Graph, c: seq<Node>)
    requires ElementaryCycle(g, c)
    ensures ClosedWalk(g, c + [c[0]])
  {
  }
}
