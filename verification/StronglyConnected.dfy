// Tarjan's algorithm as `strongly_connected_components` runs it: one depth-first search with an
// index, a stack and low-links, all updated in place.
module StronglyConnected {
  import opened Ordering
  import opened Graphs

  // ----- what the result should be

  /** A non-empty set of mutually reachable nodes to which no further node can be added. */
  ghost predicate IsComponent(g: Graph, c: seq<Node>) {
    && c != [] && Distinct(c) && SortedBy(StringLe, c)
    && (forall x | x in c :: x in g)
    && (forall x, y | x in c && y in g :: y in c <==> Reach(g, x, y) && Reach(g, y, x))
  }

  ghost function Members(comps: seq<seq<Node>>): set<Node> {
    set c, x | c in comps && x in c :: x
  }

  ghost predicate Disjoint(comps: seq<seq<Node>>) {
    forall i, j, x | 0 <= i < j < |comps| && x in comps[i] :: x !in comps[j]
  }

  /** Every edge out of a component leads into that component or an earlier one. */
  ghost predicate ReverseTopological(g: Graph, comps: seq<seq<Node>>) {
    forall i, x, y | 0 <= i < |comps| && x in comps[i] && Edge(g, x, y) :: y in Members(comps[..i + 1])
  }

  ghost predicate Components(g: Graph, comps: seq<seq<Node>>) {
    && Members(comps) <= g.Keys
    && (forall i | 0 <= i < |comps| :: IsComponent(g, comps[i]))
    && Disjoint(comps)
    && ReverseTopological(g, comps)
  }

  lemma MembersOfPrefix(comps: seq<seq<Node>>, n: nat)
    requires n <= |comps|
    ensures Members(comps[..n]) <= Members(comps)
  {
    forall x | x in Members(comps[..n]) ensures x in Members(comps) {
      var c :| c in comps[..n] && x in c;
      assert c in comps;
    }
  }

  lemma MembersAppend(comps: seq<seq<Node>>, c: seq<Node>)
    ensures Members(comps + [c]) == Members(comps) + Elements(c)
  {
    forall x ensures x in Members(comps + [c]) <==> x in Members(comps) + Elements(c) {
      if x in Members(comps) {
        var d :| d in comps && x in d;
        assert d in comps + [c];
      }
      if x in c {
        assert c in comps + [c];
      }
    }
  }

  lemma MembersClosed(g: Graph, comps: seq<seq<Node>>)
    requires ReverseTopological(g, comps)
    ensures Closed(g, Members(comps))
  {
    forall x, y | x in Members(comps) && Edge(g, x, y) ensures y in Members(comps) {
      var c :| c in comps && x in c;
      var i :| 0 <= i < |comps| && comps[i] == c;
      assert y in Members(comps[..i + 1]);
      MembersOfPrefix(comps, i + 1);
    }
  }

  lemma AppendComponent(g: Graph, comps: seq<seq<Node>>, c: seq<Node>)
    requires Components(g, comps) && IsComponent(g, c)
    requires forall x | x in c :: x !in Members(comps)
    requires forall x, y | x in c && Edge(g, x, y) :: y in c || y in Members(comps)
    ensures Components(g, comps + [c])
  {
    var all := comps + [c];
    MembersAppend(comps, c);
    forall i, j, x | 0 <= i < j < |all| && x in all[i] ensures x !in all[j] {
      assert j == |comps| ==> comps[i] in comps && x in Members(comps);
    }
    forall i, x, y | 0 <= i < |all| && x in all[i] && Edge(g, x, y) ensures y in Members(all[..i + 1]) {
      if i < |comps| {
        assert all[..i + 1] == comps[..i + 1];
      } else {
        assert all[..i + 1] == all;
      }
    }
  }

  // ----- what holds at every moment of the search

  datatype State = State(index: nat, indices: map<Node, nat>, stack: seq<Node>, comps: seq<seq<Node>>)

  /** The stack is in discovery order, and every numbered node is on it or in a finished component. */
  ghost predicate Numbered(g: Graph, s: State) {
    && s.indices.Keys <= g.Keys
    && (forall x | x in s.indices :: s.indices[x] < s.index)
    && (forall x :: x in s.indices <==> x in s.stack || x in Members(s.comps))
    && (forall x | x in s.stack :: x !in Members(s.comps))
    && (forall i, j | 0 <= i < j < |s.stack| :: s.indices[s.stack[i]] < s.indices[s.stack[j]])
  }

  /** `gray` holds the nodes whose visit is still running; each reaches everything stacked after it. */
  ghost predicate GrayReaches(g: Graph, gray: set<Node>, s: State) {
    && (forall x | x in gray :: x in s.stack && x in s.indices)
    && (forall x, y {:trigger Reach(g, x, y)}
          | x in gray && y in s.stack && y in s.indices && s.indices[x] <= s.indices[y] :: Reach(g, x, y))
  }

  /** A running visit that began no later than that of `y` is reachable from `y`. */
  ghost predicate ReachesOlder(g: Graph, gray: set<Node>, indices: map<Node, nat>, y: Node) {
    y in indices && exists x :: x in gray && x in indices && indices[x] <= indices[y] && Reach(g, y, x)
  }

  /** Every node on the stack leads back to a visit that is still running. */
  ghost predicate Anchored(g: Graph, gray: set<Node>, s: State) {
    forall y {:trigger ReachesOlder(g, gray, s.indices, y)} | y in s.stack :: ReachesOlder(g, gray, s.indices, y)
  }

  /** A finished visit has no undiscovered successor. */
  ghost predicate BlackClosed(g: Graph, gray: set<Node>, s: State) {
    forall x, y | x in s.indices && x !in gray && Edge(g, x, y) :: y in s.indices
  }

  ghost predicate Invariant(g: Graph, gray: set<Node>, s: State) {
    && Numbered(g, s)
    && GrayReaches(g, gray, s)
    && Anchored(g, gray, s)
    && BlackClosed(g, gray, s)
    && Components(g, s.comps)
  }

  /** What a call leaves of the state it found: nothing is unstacked or renumbered. */
  ghost predicate Extends(s: State, s': State) {
    && s.index <= s'.index && s.stack <= s'.stack && s.comps <= s'.comps
    && (forall x | x in s.indices :: x in s'.indices && s'.indices[x] == s.indices[x])
    && (forall x | x in s'.indices && x !in s.indices :: s.index <= s'.indices[x])
  }

  /** No edge from what was stacked after the first `base` nodes leads to one of those under index `low`. */
  ghost predicate LowBound(g: Graph, s: State, base: nat, low: nat)
    requires base <= |s.stack|
  {
    forall x, y | x in s.stack[base..] && y in s.stack[..base] && y in s.indices && Edge(g, x, y) :: low <= s.indices[y]
  }

  /** `low` is the index of a stacked node that `v` reaches. */
  ghost predicate LowWitness(g: Graph, s: State, v: Node, low: nat) {
    exists y :: y in s.stack && y in s.indices && s.indices[y] == low && Reach(g, v, y)
  }

  /** What the visit of `v` does to the state, and what its low-link then says. */
  ghost predicate Visited(g: Graph, gray: set<Node>, s: State, s': State, v: Node, low: nat) {
    && Invariant(g, gray, s')
    && Extends(s, s')
    && v in s'.indices && s'.indices[v] == s.index && low <= s.index
    && (low == s.index ==> s'.stack == s.stack)
    && (low < s.index ==> LowWitness(g, s'.(stack := s.stack), v, low))
    && LowBound(g, s', |s.stack|, low)
  }

  /** As `LowBound`, but of the edges out of `v` only those to its first `k` successors count. */
  ghost predicate PartialLowBound(g: Graph, s: State, base: nat, v: Node, k: nat, low: nat)
    requires base <= |s.stack| && v in g && k <= |g[v]|
  {
    && (forall x, y | x in s.stack[base..] && x != v && y in s.stack[..base] && y in s.indices && Edge(g, x, y) ::
          low <= s.indices[y])
    && (forall i | 0 <= i < k && g[v][i] in s.stack[..base] && g[v][i] in s.indices :: low <= s.indices[g[v][i]])
  }

  /** The visit of `v`, begun in state `s0`, has handled the first `k` successors of `v`. */
  ghost predicate Searching(g: Graph, gray: set<Node>, s0: State, s: State, v: Node, k: nat, low: nat) {
    && Invariant(g, gray + {v}, s)
    && Extends(s0, s) && s0.stack + [v] <= s.stack
    && v in g && k <= |g[v]|
    && v in s.indices && s.indices[v] == s0.index && v !in s0.indices
    && low <= s0.index
    && LowWitness(g, s, v, low)
    && PartialLowBound(g, s, |s0.stack|, v, k, low)
    && (forall i | 0 <= i < k && g[v][i] in g :: g[v][i] in s.indices)
  }

  // ----- the steps of a visit

  function Pushed(s: State, v: Node): State {
    State(s.index + 1, s.indices[v := s.index], s.stack + [v], s.comps)
  }

  lemma PushNumbers(g: Graph, s: State, v: Node)
    requires Numbered(g, s) && v in g && v !in s.indices
    ensures Numbered(g, Pushed(s, v)) && Extends(s, Pushed(s, v))
  {
  }

  lemma PushAnchors(g: Graph, gray: set<Node>, s: State, v: Node)
    requires Numbered(g, s) && GrayReaches(g, gray, s) && Anchored(g, gray, s) && BlackClosed(g, gray, s)
    requires v in g && v !in s.indices
    requires forall x | x in gray :: Reach(g, x, v)
    ensures GrayReaches(g, gray + {v}, Pushed(s, v))
    ensures Anchored(g, gray + {v}, Pushed(s, v))
    ensures BlackClosed(g, gray + {v}, Pushed(s, v))
  {
    var s', gray' := Pushed(s, v), gray + {v};
    ReachSelf(g, v);
    forall y | y in s'.stack ensures ReachesOlder(g, gray', s'.indices, y) {
      if y == v {
        assert v in gray' && s'.indices[v] <= s'.indices[v];
      } else {
        assert ReachesOlder(g, gray, s.indices, y);
        var x :| x in gray && x in s.indices && s.indices[x] <= s.indices[y] && Reach(g, y, x);
        assert x in gray' && s'.indices[x] <= s'.indices[y];
      }
    }
  }

  lemma StartSearch(g: Graph, gray: set<Node>, s: State, v: Node)
    requires Invariant(g, gray, s)
    requires v in g && v !in s.indices
    requires forall x | x in gray :: Reach(g, x, v)
    ensures Searching(g, gray, s, Pushed(s, v), v, 0, s.index)
  {
    ReachSelf(g, v);
    PushNumbers(g, s, v);
    PushAnchors(g, gray, s, v);
    var s' := Pushed(s, v);
    assert s'.stack[|s.stack|..] == [v];
    assert v in s'.stack;
  }

  /** The next successor is unknown, or already in a finished component. */
  lemma SearchSkips(g: Graph, gray: set<Node>, s0: State, s: State, v: Node, k: nat, low: nat)
    requires Searching(g, gray, s0, s, v, k, low) && k < |g[v]|
    requires g[v][k] in g ==> g[v][k] in s.indices
    requires g[v][k] !in s.stack
    ensures Searching(g, gray, s0, s, v, k + 1, low)
  {
    hide Invariant, Reach, LowWitness, Extends;
    assert forall x | x in s.stack[..|s0.stack|] :: x in s.stack;
  }

  function Min(a: nat, b: nat): nat { if b < a then b else a }

  /** The next successor is on the stack. */
  lemma SearchMeetsStacked(g: Graph, gray: set<Node>, s0: State, s: State, v: Node, k: nat, low: nat)
    requires Searching(g, gray, s0, s, v, k, low) && k < |g[v]|
    requires g[v][k] in s.stack && g[v][k] in s.indices && g[v][k] in g
    ensures Searching(g, gray, s0, s, v, k + 1, Min(low, s.indices[g[v][k]]))
  {
    hide Invariant, Reach, LowWitness, Extends;
    ReachEdge(g, v, g[v][k]);
    WitnessAfterEdge(g, s, v, g[v][k]);
  }

  lemma WitnessAfterEdge(g: Graph, s: State, v: Node, w: Node)
    requires w in s.stack && w in s.indices && Reach(g, v, w)
    ensures LowWitness(g, s, v, s.indices[w])
  {
  }

  /** The next successor was new and has been visited. */
  lemma SearchReturns(g: Graph, gray: set<Node>, s0: State, s: State, s': State, v: Node, k: nat, low: nat, lowW: nat)
    requires Searching(g, gray, s0, s, v, k, low) && k < |g[v]|
    requires g[v][k] in g && g[v][k] !in s.indices
    requires Visited(g, gray + {v}, s, s', g[v][k], lowW)
    ensures Searching(g, gray, s0, s', v, k + 1, Min(low, lowW))
  {
    hide Numbered, GrayReaches, Anchored, BlackClosed, Components, Reach, LowWitness, PartialLowBound, LowBound, Extends;
    IndexGrows(g, gray + {v}, s, v);
    ExtendsTransitive(s0, s, s');
    ExtendsKeeps(s, s');
    BoundAfterChild(g, s, s', |s0.stack|, v, k, low, lowW);
    WitnessAfterChild(g, s, s', v, g[v][k], low, lowW);
  }

  lemma IndexGrows(g: Graph, gray: set<Node>, s: State, v: Node)
    requires Invariant(g, gray, s) && v in s.indices
    ensures s.indices[v] < s.index
  {
  }

  lemma ExtendsKeeps(s: State, s': State)
    requires Extends(s, s')
    ensures s.stack <= s'.stack
    ensures forall x | x in s.indices :: x in s'.indices && s'.indices[x] == s.indices[x]
  {
  }

  lemma ExtendsTransitive(s0: State, s1: State, s2: State)
    requires Extends(s0, s1) && Extends(s1, s2)
    ensures Extends(s0, s2)
  {
    forall x | x in s2.indices && x !in s0.indices ensures s0.index <= s2.indices[x] {
      if x in s1.indices {
        assert s2.indices[x] == s1.indices[x];
      }
    }
  }

  lemma BoundAfterChild(g: Graph, s: State, s': State, base: nat, v: Node, k: nat, low: nat, lowW: nat)
    requires Numbered(g, s) && Extends(s, s')
    requires base <= |s.stack| && v in g && k < |g[v]| && g[v][k] !in s.indices
    requires PartialLowBound(g, s, base, v, k, low)
    requires LowBound(g, s', |s.stack|, lowW)
    ensures PartialLowBound(g, s', base, v, k + 1, Min(low, lowW))
  {
    assert s'.stack[..base] == s.stack[..base];
    assert s'.stack[base..] == s.stack[base..] + s'.stack[|s.stack|..];
    forall y | y in s'.stack[..base] ensures y in s.stack && y in s'.stack[..|s.stack|] && s'.indices[y] == s.indices[y] {
      assert s'.stack[..|s.stack|] == s.stack;
    }
    forall x, y | x in s'.stack[base..] && x != v && y in s'.stack[..base] && Edge(g, x, y)
      ensures low <= s'.indices[y] || lowW <= s'.indices[y]
    {
      if x in s.stack[base..] {
        assert low <= s.indices[y];
      }
    }
  }

  lemma WitnessAfterChild(g: Graph, s: State, s': State, v: Node, w: Node, low: nat, lowW: nat)
    requires Extends(s, s') && Edge(g, v, w)
    requires LowWitness(g, s, v, low)
    requires lowW < low ==> LowWitness(g, s'.(stack := s.stack), w, lowW)
    ensures LowWitness(g, s', v, Min(low, lowW))
  {
    if lowW < low {
      var y :| y in s.stack && y in s'.indices && s'.indices[y] == lowW && Reach(g, w, y);
      ReachEdge(g, v, w);
      ReachTransitive(g, v, w, y);
      assert y in s'.stack;
    } else {
      var y :| y in s.stack && y in s.indices && s.indices[y] == low && Reach(g, v, y);
      assert y in s'.stack;
    }
  }

  // ----- the two ways a visit ends

  lemma Splits(g: Graph, s: State, base: nat)
    requires Numbered(g, s) && base < |s.stack|
    ensures forall x | x in s.stack :: x in s.indices
    ensures forall x | x in s.stack[..base] :: s.indices[x] < s.indices[s.stack[base]] && x !in s.stack[base..]
    ensures forall x | x in s.stack[base..] :: s.indices[s.stack[base]] <= s.indices[x]
  {
  }

  lemma FinishBlack(g: Graph, gray: set<Node>, s: State, v: Node)
    requires BlackClosed(g, gray + {v}, s)
    requires v in g && forall i | 0 <= i < |g[v]| && g[v][i] in g :: g[v][i] in s.indices
    ensures BlackClosed(g, gray, s)
  {
    forall x, y | x in s.indices && x !in gray && Edge(g, x, y) ensures y in s.indices {
      if x != v {
        assert x !in gray + {v};
      }
    }
  }

  lemma FinishLow(g: Graph, s: State, base: nat, v: Node, low: nat)
    requires Numbered(g, s)
    requires base < |s.stack| && s.stack[base] == v && v in g && v in s.indices
    requires PartialLowBound(g, s, base, v, |g[v]|, low) && LowWitness(g, s, v, low)
    ensures LowBound(g, s, base, low)
    ensures low < s.indices[v] ==> LowWitness(g, s.(stack := s.stack[..base]), v, low)
  {
    if low < s.indices[v] {
      var y :| y in s.stack && y in s.indices && s.indices[y] == low && Reach(g, v, y);
      Splits(g, s, base);
      assert s.stack == s.stack[..base] + s.stack[base..];
      assert y in s.stack[..base];
    }
  }

  /** Something older is reachable: `v` stays on the stack. */
  lemma LeaveOpen(g: Graph, gray: set<Node>, s0: State, s: State, v: Node, low: nat)
    requires v in g && Searching(g, gray, s0, s, v, |g[v]|, low)
    requires low < s0.index
    requires forall x | x in gray :: x in s0.stack && x != v
    ensures Visited(g, gray, s0, s, v, low)
  {
    hide Numbered, GrayReaches, Anchored, BlackClosed, Components, Reach, LowWitness, PartialLowBound, LowBound, Extends;
    var base := |s0.stack|;
    assert s.stack[..base] == s0.stack;
    FinishLow(g, s, base, v, low);
    FinishBlack(g, gray, s, v);
    StaysAnchored(g, gray, s, v, low);
    FinishGray(g, gray, s, v);
  }

  lemma FinishGray(g: Graph, gray: set<Node>, s: State, v: Node)
    requires GrayReaches(g, gray + {v}, s)
    ensures GrayReaches(g, gray, s)
  {
  }

  lemma StaysAnchored(g: Graph, gray: set<Node>, s: State, v: Node, low: nat)
    requires Anchored(g, gray + {v}, s)
    requires v in s.indices && low < s.indices[v] && LowWitness(g, s, v, low)
    ensures Anchored(g, gray, s)
  {
    var w :| w in s.stack && w in s.indices && s.indices[w] == low && Reach(g, v, w);
    assert ReachesOlder(g, gray + {v}, s.indices, w);
    var z :| z in gray + {v} && z in s.indices && s.indices[z] <= s.indices[w] && Reach(g, w, z);
    ReachTransitive(g, v, w, z);
    forall y | y in s.stack ensures ReachesOlder(g, gray, s.indices, y) {
      assert ReachesOlder(g, gray + {v}, s.indices, y);
      StillReachesOlder(g, gray, s.indices, v, z, y);
    }
  }

  lemma StillReachesOlder(g: Graph, gray: set<Node>, indices: map<Node, nat>, v: Node, z: Node, y: Node)
    requires v in indices && ReachesOlder(g, gray + {v}, indices, y)
    requires z in gray && z in indices && indices[z] < indices[v] && Reach(g, v, z)
    ensures ReachesOlder(g, gray, indices, y)
  {
    var x :| x in gray + {v} && x in indices && indices[x] <= indices[y] && Reach(g, y, x);
    if x == v {
      ReachTransitive(g, y, v, z);
    }
  }

  /** Nothing older is reachable.  Then the stack from `v` up is left only into finished components; ... */
  lemma TopIsClosed(g: Graph, gray: set<Node>, s: State, v: Node, base: nat)
    requires Numbered(g, s) && BlackClosed(g, gray, s)
    requires base < |s.stack| && s.stack[base] == v
    requires forall x | x in gray :: x in s.stack[..base]
    requires LowBound(g, s, base, s.indices[v])
    ensures forall x, y | x in s.stack[base..] && Edge(g, x, y) :: y in s.stack[base..] || y in Members(s.comps)
  {
    Splits(g, s, base);
    assert s.stack == s.stack[..base] + s.stack[base..];
    forall x, y | x in s.stack[base..] && Edge(g, x, y) ensures y in s.stack[base..] || y in Members(s.comps) {
      assert x !in gray;
      assert y in s.indices;
    }
  }

  /** ... it is a set of mutually reachable nodes; ... */
  lemma TopIsConnected(g: Graph, gray: set<Node>, s: State, v: Node, base: nat)
    requires Numbered(g, s) && GrayReaches(g, gray + {v}, s) && Anchored(g, gray + {v}, s)
    requires base < |s.stack| && s.stack[base] == v
    requires forall x | x in gray :: x in s.stack[..base]
    requires Closed(g, Elements(s.stack[base..]) + Members(s.comps))
    ensures forall x | x in s.stack[base..] :: Reach(g, v, x) && Reach(g, x, v)
  {
    Splits(g, s, base);
    forall x | x in s.stack[base..] ensures Reach(g, v, x) && Reach(g, x, v) {
      assert ReachesOlder(g, gray + {v}, s.indices, x);
      var z :| z in gray + {v} && z in s.indices && s.indices[z] <= s.indices[x] && Reach(g, x, z);
      ReachStaysIn(g, Elements(s.stack[base..]) + Members(s.comps), x, z);
      assert z == v;
    }
  }

  /** ... and no node outside it is mutually reachable with it. */
  lemma TopIsMaximal(g: Graph, top: seq<Node>, done: set<Node>, v: Node)
    requires v in top && forall x | x in top :: x !in done
    requires Closed(g, done) && Closed(g, Elements(top) + done)
    requires forall x | x in top :: Reach(g, v, x) && Reach(g, x, v)
    ensures forall x, y | x in top && y in g :: y in top <==> Reach(g, x, y) && Reach(g, y, x)
  {
    forall x, y | x in top && y in g ensures y in top <==> Reach(g, x, y) && Reach(g, y, x) {
      if y in top {
        ReachTransitive(g, x, v, y);
        ReachTransitive(g, y, v, x);
      } else if Reach(g, x, y) && Reach(g, y, x) {
        ReachStaysIn(g, Elements(top) + done, x, y);
        ReachStaysIn(g, done, y, x);
        assert false;
      }
    }
  }

  lemma PopNumbers(g: Graph, s: State, base: nat, c: seq<Node>)
    requires Numbered(g, s) && base < |s.stack|
    requires Elements(c) == Elements(s.stack[base..])
    ensures Numbered(g, s.(stack := s.stack[..base], comps := s.comps + [c]))
  {
    var s' := s.(stack := s.stack[..base], comps := s.comps + [c]);
    Splits(g, s, base);
    MembersAppend(s.comps, c);
    assert s.stack == s.stack[..base] + s.stack[base..];
    forall x ensures x in s.stack[base..] <==> x in c {
      assert x in Elements(c) <==> x in Elements(s.stack[base..]);
    }
    forall x ensures x in s'.indices <==> x in s'.stack || x in Members(s'.comps) {
      assert x in s'.stack ==> x in s.stack;
    }
  }

  lemma PopAnchors(g: Graph, gray: set<Node>, s: State, s': State, v: Node, base: nat)
    requires Numbered(g, s) && Anchored(g, gray + {v}, s)
    requires base < |s.stack| && s.stack[base] == v
    requires s'.indices == s.indices && s'.stack == s.stack[..base]
    ensures Anchored(g, gray, s')
  {
    Splits(g, s, base);
    forall y | y in s'.stack ensures ReachesOlder(g, gray, s'.indices, y) {
      assert y in s.stack && s.indices[y] < s.indices[v];
      assert ReachesOlder(g, gray + {v}, s.indices, y);
    }
  }

  lemma PopGray(g: Graph, gray: set<Node>, s: State, s': State, v: Node, base: nat)
    requires GrayReaches(g, gray + {v}, s)
    requires base < |s.stack| && s'.stack == s.stack[..base] && s'.indices == s.indices
    requires forall x | x in gray :: x in s'.stack
    ensures GrayReaches(g, gray, s')
  {
    assert forall y | y in s'.stack :: y in s.stack;
  }

  /** The component is closed. */
  lemma CloseTop(g: Graph, gray: set<Node>, s0: State, s: State, v: Node, c: seq<Node>)
    requires v in g && Searching(g, gray, s0, s, v, |g[v]|, s0.index)
    requires forall x | x in gray :: x in s0.stack
    requires |s0.stack| <= |s.stack| && Elements(c) == Elements(s.stack[|s0.stack|..])
    requires Distinct(c) && SortedBy(StringLe, c)
    ensures Visited(g, gray, s0, s.(stack := s.stack[..|s0.stack|], comps := s.comps + [c]), v, s0.index)
  {
    hide Numbered, GrayReaches, Anchored, Components, Reach, LowWitness, PartialLowBound;
    var base := |s0.stack|;
    var s' := s.(stack := s.stack[..base], comps := s.comps + [c]);
    assert s'.stack == s0.stack && s.stack[base] == v;
    FinishLow(g, s, base, v, s0.index);
    FinishBlack(g, gray, s, v);
    TopIsComponent(g, gray, s, v, base, c);
    PopNumbers(g, s, base, c);
    PopAnchors(g, gray, s, s', v, base);
    PopGray(g, gray, s, s', v, base);
    assert BlackClosed(g, gray, s');
  }

  lemma TopIsComponent(g: Graph, gray: set<Node>, s: State, v: Node, base: nat, c: seq<Node>)
    requires Invariant(g, gray + {v}, s) && BlackClosed(g, gray, s)
    requires base < |s.stack| && s.stack[base] == v
    requires forall x | x in gray :: x in s.stack[..base]
    requires LowBound(g, s, base, s.indices[v])
    requires Elements(c) == Elements(s.stack[base..]) && Distinct(c) && SortedBy(StringLe, c)
    ensures Components(g, s.comps + [c])
  {
    var top := s.stack[base..];
    forall x ensures x in top <==> x in c {
      assert x in Elements(c) <==> x in Elements(top);
    }
    assert v in top;
    MembersClosed(g, s.comps);
    TopIsClosed(g, gray, s, v, base);
    assert Closed(g, Elements(top) + Members(s.comps));
    TopIsConnected(g, gray, s, v, base);
    TopIsMaximal(g, top, Members(s.comps), v);
    AppendComponent(g, s.comps, c);
  }

  // ----- the search

  lemma GrayReachesNext(g: Graph, gray: set<Node>, v: Node, w: Node)
    requires Edge(g, v, w) && forall x | x in gray :: Reach(g, x, v)
    ensures forall x | x in gray :: Reach(g, x, w)
  {
    ReachEdge(g, v, w);
    forall x | x in gray ensures Reach(g, x, w) {
      ReachTransitive(g, x, v, w);
    }
  }

  lemma GrayIsStacked(g: Graph, gray: set<Node>, s: State)
    requires Invariant(g, gray, s)
    ensures forall x | x in gray :: x in s.stack && x in s.indices
  {
  }

  lemma SearchFacts(g: Graph, gray: set<Node>, s0: State, s: State, v: Node, k: nat, low: nat)
    requires Searching(g, gray, s0, s, v, k, low)
    ensures Invariant(g, gray + {v}, s)
    ensures v in g && k <= |g[v]| && low <= s0.index
    ensures |s0.stack| < |s.stack| && s.stack[|s0.stack|] == v
    ensures v in s.indices && s.indices[v] == s0.index
    ensures s0.indices.Keys <= s.indices.Keys <= g.Keys && v !in s0.indices
    ensures forall x | x in s.stack :: x in s.indices
  {
  }

  lemma StackIsDistinct(g: Graph, gray: set<Node>, s: State)
    requires Invariant(g, gray, s)
    ensures Distinct(s.stack)
  {
  }

  ghost predicate Keeps(m: map<Node, nat>, m': map<Node, nat>) {
    forall x | x in m :: x in m' && m'[x] == m[x]
  }

  lemma KeepsThrough(m: map<Node, nat>, m': map<Node, nat>, m'': map<Node, nat>, v: Node)
    requires Keeps(m, m') && Keeps(m', m'') && v in m'
    ensures Keeps(m, m'') && v in m'' && m''[v] == m'[v]
  {
  }

  lemma KeepsRelinked(m: map<Node, nat>, m': map<Node, nat>, v: Node, low: nat)
    requires m == m' || Keeps(m, m')
    requires v !in m
    ensures Keeps(m, m'[v := low])
  {
  }

  lemma Returns(g: Graph, gray: set<Node>, s0: State, s: State, s': State, v: Node, k: nat,
                links0: map<Node, nat>, links: map<Node, nat>, links': map<Node, nat>)
    requires v in g && k < |g[v]| && g[v][k] in g && g[v][k] !in s.indices
    requires v in links && Searching(g, gray, s0, s, v, k, links[v])
    requires g[v][k] in links' && Visited(g, gray + {v}, s, s', g[v][k], links'[g[v][k]])
    requires Keeps(links0, links) && v !in links0 && Keeps(links, links')
    ensures v in links'
    ensures var low := Min(links'[v], links'[g[v][k]]);
            Keeps(links0, links'[v := low]) && Searching(g, gray, s0, s', v, k + 1, low)
  {
    hide Searching, Visited;
    KeepsThrough(links0, links, links', v);
    SearchReturns(g, gray, s0, s, s', v, k, links[v], links'[g[v][k]]);
  }

  /** Each running visit holds a node of its own, so the recursion is never deeper than the graph has nodes. */
  lemma RecursionDepth(g: Graph, gray: set<Node>, s: State, v: Node)
    requires Invariant(g, gray, s)
    requires v in g && v !in s.indices
    ensures |gray| + 1 <= |g|
  {
    GrayIsStacked(g, gray, s);
    IndicesKnown(g, gray, s);
    assert g.Keys == (gray + {v}) + (g.Keys - (gray + {v}));
    assert |gray + {v}| == |gray| + 1;
  }

  class SccSearch {
    const graph: Graph
    var index: nat
    var stack: seq<Node>
    var onStack: set<Node>
    var indices: map<Node, nat>
    var lowlinks: map<Node, nat>
    var comps: seq<seq<Node>>

    ghost function Now(): State
      reads this
    {
      State(index, indices, stack, comps)
    }

    /** The redundant parts of the state agree with the others. */
    ghost predicate Consistent()
      reads this
    {
      onStack == Elements(stack) && lowlinks.Keys == indices.Keys
    }

    constructor (g: Graph)
      ensures graph == g && Invariant(g, {}, Now()) && Consistent()
      ensures indices == map[] && stack == [] && comps == []
    {
      graph := g;
      index, stack, onStack, indices, lowlinks, comps := 0, [], {}, map[], map[], [];
    }

    method Visit(v: Node, ghost gray: set<Node>)
      requires Invariant(graph, gray, Now()) && Consistent()
      requires v in graph && v !in indices
      requires forall x | x in gray :: Reach(graph, x, v)
      modifies this
      decreases graph.Keys - indices.Keys
      ensures Consistent() && v in lowlinks && Keeps(old(lowlinks), lowlinks)
      ensures Visited(graph, gray, old(Now()), Now(), v, lowlinks[v])
    {
      hide Invariant, Searching, Visited, Reach, Keeps, Min;
      StartSearch(graph, gray, Now(), v);
      GrayIsStacked(graph, gray, Now());
      ReachSelf(graph, v);
      KeepsRelinked(lowlinks, lowlinks, v, index);
      ghost var s0 := Now();
      indices := indices[v := index];
      lowlinks := lowlinks[v := index];
      index := index + 1;
      stack := stack + [v];
      onStack := onStack + {v};

      for i := 0 to |graph[v]|
        invariant Consistent() && v in lowlinks && Keeps(old(lowlinks), lowlinks)
        invariant Searching(graph, gray, s0, Now(), v, i, lowlinks[v])
      {
        SearchFacts(graph, gray, s0, Now(), v, i, lowlinks[v]);
        var w := graph[v][i];
        if w !in graph {
          SearchSkips(graph, gray, s0, Now(), v, i, lowlinks[v]);
          continue;
        }
        if w !in indices {
          GrayReachesNext(graph, gray + {v}, v, w);
          ghost var s, links := Now(), lowlinks;
          Visit(w, gray + {v});
          Returns(graph, gray, s0, s, Now(), v, i, old(lowlinks), links, lowlinks);
          Relink(v, lowlinks[w]);
        } else if w in onStack {
          SearchMeetsStacked(graph, gray, s0, Now(), v, i, lowlinks[v]);
          KeepsRelinked(old(lowlinks), lowlinks, v, Min(lowlinks[v], indices[w]));
          Relink(v, indices[w]);
        } else {
          SearchSkips(graph, gray, s0, Now(), v, i, lowlinks[v]);
        }
      }
      Finish(v, gray, s0);
    }

    /** `lowlink[v] = min(lowlink[v], low)` */
    method Relink(v: Node, low: nat)
      requires Consistent() && v in lowlinks
      modifies this`lowlinks
      ensures Consistent() && lowlinks == old(lowlinks)[v := Min(old(lowlinks)[v], low)]
    {
      lowlinks := lowlinks[v := Min(lowlinks[v], low)];
    }

    /** The part of `visit` after its loop. */
    method Finish(v: Node, ghost gray: set<Node>, ghost s0: State)
      requires Consistent() && v in graph && v in lowlinks
      requires Searching(graph, gray, s0, Now(), v, |graph[v]|, lowlinks[v])
      requires forall x | x in gray :: x in s0.stack && x != v
      modifies this
      ensures Consistent() && lowlinks == old(lowlinks)
      ensures Visited(graph, gray, s0, Now(), v, lowlinks[v])
    {
      hide Invariant, Searching, Visited, Reach, SortedBy, StringLe;
      SearchFacts(graph, gray, s0, Now(), v, |graph[v]|, lowlinks[v]);
      if lowlinks[v] == indices[v] {
        StackIsDistinct(graph, gray + {v}, Now());
        ghost var s := Now();
        var comp := PopComponent(v, |s0.stack|);
        CloseTop(graph, gray, s0, s, v, comp);
      } else {
        LeaveOpen(graph, gray, s0, Now(), v, lowlinks[v]);
      }
    }

    /** The pop loop of `visit`, and the sorting of what it popped. */
    method PopComponent(v: Node, ghost base: nat) returns (sorted: seq<Node>)
      requires base < |stack| && stack[base] == v && Distinct(stack)
      requires Consistent()
      modifies this
      ensures Consistent() && lowlinks == old(lowlinks)
      ensures Now() == old(Now()).(stack := old(stack)[..base], comps := old(comps) + [sorted])
      ensures Elements(sorted) == Elements(old(stack)[base..])
      ensures Distinct(sorted) && SortedBy(StringLe, sorted)
    {
      hide SortedBy, StringLe;
      var comp: seq<Node> := [];
      while stack != []
        invariant base < |stack| <= |old(stack)| && stack == old(stack)[..|stack|]
        invariant onStack == Elements(stack)
        invariant forall x :: x in comp <==> x in old(stack)[|stack|..]
        invariant index == old(index) && indices == old(indices) && lowlinks == old(lowlinks) && comps == old(comps)
      {
        var w := stack[|stack| - 1];
        stack := stack[..|stack| - 1];
        onStack := onStack - {w};
        comp := comp + [w];
        if w == v {
          break;
        }
      }
      sorted := SortedElements(Elements(comp));
      comps := comps + [sorted];
    }
  }

  lemma NothingRunning(g: Graph, s: State)
    requires Invariant(g, {}, s)
    ensures s.stack == [] && s.indices.Keys == Members(s.comps) && Components(g, s.comps)
  {
    assert s.stack == [] || s.stack[0] in s.stack;
    forall y | y in s.stack ensures false {
      NoAnchor(g, s.indices, y);
    }
  }

  lemma NoAnchor(g: Graph, indices: map<Node, nat>, y: Node)
    ensures !ReachesOlder(g, {}, indices, y)
  {
  }

  method StronglyConnectedComponents(graph: Graph) returns (comps: seq<seq<Node>>)
    ensures Components(graph, comps) && Members(comps) == graph.Keys
  {
    hide Invariant, Visited, Reach, Components, Keeps, Members, SortedBy, StringLe;
    var search := new SccSearch(graph);
    var nodes := SortedElements(graph.Keys);
    for i := 0 to |nodes|
      invariant search.graph == graph && fresh(search)
      invariant Invariant(graph, {}, search.Now()) && search.Consistent()
      invariant forall k | 0 <= k < i :: nodes[k] in search.indices
    {
      var node := nodes[i];
      assert node in Elements(nodes);
      ghost var s := search.Now();
      if node !in search.indices {
        search.Visit(node, {});
        VisitFacts(graph, {}, s, search.Now(), node, search.lowlinks[node]);
      }
    }
    comps := search.comps;
    NothingRunning(graph, search.Now());
    forall x | x in graph ensures x in search.indices {
      assert x in Elements(nodes);
    }
    IndicesKnown(graph, {}, search.Now());
  }

  lemma VisitFacts(g: Graph, gray: set<Node>, s: State, s': State, v: Node, low: nat)
    requires Visited(g, gray, s, s', v, low)
    ensures Invariant(g, gray, s') && v in s'.indices
    ensures s.indices.Keys <= s'.indices.Keys
  {
  }

  lemma IndicesKnown(g: Graph, gray: set<Node>, s: State)
    requires Invariant(g, gray, s)
    ensures s.indices.Keys <= g.Keys
  {
  }

  // ----- what the result means

  /** The components partition the nodes, and two nodes share one exactly when each reaches the other. */
  lemma SharedComponent(g: Graph, comps: seq<seq<Node>>, x: Node, y: Node)
    requires Components(g, comps) && Members(comps) == g.Keys
    requires x in g && y in g
    ensures exists i :: 0 <= i < |comps| && x in comps[i] && forall j | 0 <= j < |comps| && x in comps[j] :: j == i
    ensures (exists i :: 0 <= i < |comps| && x in comps[i] && y in comps[i]) <==> Reach(g, x, y) && Reach(g, y, x)
  {
    hide Reach;
    var c :| c in comps && x in c;
    var i :| 0 <= i < |comps| && comps[i] == c;
    assert IsComponent(g, comps[i]);
    forall j | 0 <= j < |comps| && x in comps[j] ensures j == i {
    }
  }

  /** A later component is out of reach of an earlier one. */
  lemma EarlierNeverReachesLater(g: Graph, comps: seq<seq<Node>>, i: nat, j: nat, x: Node, y: Node)
    requires Components(g, comps)
    requires i < j < |comps| && x in comps[i] && y in comps[j]
    ensures !Reach(g, x, y)
  {
    var done := comps[..i + 1];
    forall k, a, b | 0 <= k < |done| && a in done[k] && Edge(g, a, b) ensures b in Members(done[..k + 1]) {
      assert done[..k + 1] == comps[..k + 1] && done[k] == comps[k];
    }
    MembersClosed(g, done);
    assert done[i] in done && x in Members(done);
    forall k | 0 <= k < |done| ensures y !in done[k] {
      assert done[k] == comps[k];
    }
    assert y !in Members(done);
    if Reach(g, x, y) {
      ReachStaysIn(g, Members(done), x, y);
    }
  }
}
