// What the backtracking search records, as a function, and a graph on which it overruns the cap by the most it can:
// the cap is tested on entry to a frame only, so every frame that is open when it is reached records one cycle more.
module CycleCap {
  import opened Ordering
  import opened Graphs
  import opened StronglyConnected
  import opened CycleKeys

  /** The chains recorded, and the keys of the cycles seen. */
  datatype Found = Found(chains: seq<seq<Node>>, seen: set<seq<Node>>)

  ghost function Record(f: Found, p: seq<Node>, start: Node): Found
    requires p != []
  {
    if Key(p) in f.seen then f else Found(f.chains + [p + [start]], f.seen + {Key(p)})
  }

  /** The call of `dfs` with the path `p` on the stack; `allowed` are the nodes of the component from the start on. */
  ghost function Frame(g: Graph, cap: nat, allowed: set<Node>, p: seq<Node>, f: Found): Found
    requires p != []
    decreases allowed - Elements(p), 1, 0
  {
    var cur := p[|p| - 1];
    if |f.chains| >= cap || cur !in g then f else FrameLoop(g, cap, allowed, p, g[cur], |g[cur]|, f)
  }

  /** Its loop, over the first `i` successors. */
  ghost function FrameLoop(g: Graph, cap: nat, allowed: set<Node>, p: seq<Node>, succs: seq<Node>, i: nat, f: Found): Found
    requires p != [] && i <= |succs|
    decreases allowed - Elements(p), 0, i
  {
    if i == 0 then f
    else
      var before, nxt := FrameLoop(g, cap, allowed, p, succs, i - 1, f), succs[i - 1];
      if nxt == p[0] then Record(before, p, nxt)
      else if nxt in allowed && nxt !in p then
        Shrinks(allowed, p, nxt);
        Frame(g, cap, allowed, p + [nxt], before)
      else before
  }

  lemma Shrinks(allowed: set<Node>, p: seq<Node>, w: Node)
    requires w in allowed && w !in p
    ensures allowed - Elements(p + [w]) < allowed - Elements(p)
  {
    assert w in allowed - Elements(p) && w !in allowed - Elements(p + [w]);
  }

  function From(comp: set<Node>, start: Node): set<Node> {
    set x | x in comp && StringLe(start, x)
  }

  /** The search from the first `i` start nodes of a component. */
  ghost function StartsRun(g: Graph, cap: nat, comp: set<Node>, nodes: seq<Node>, i: nat, f: Found): Found
    requires i <= |nodes|
  {
    if i == 0 then f
    else Frame(g, cap, From(comp, nodes[i - 1]), [nodes[i - 1]], StartsRun(g, cap, comp, nodes, i - 1, f))
  }

  /** Once the cap is reached, the remaining start nodes add nothing. */
  lemma {:induction false} CappedStays(g: Graph, cap: nat, comp: set<Node>, nodes: seq<Node>, i: nat, j: nat, f: Found)
    requires i <= j <= |nodes| && |StartsRun(g, cap, comp, nodes, i, f).chains| >= cap
    ensures StartsRun(g, cap, comp, nodes, j, f) == StartsRun(g, cap, comp, nodes, i, f)
  {
    if i < j {
      CappedStays(g, cap, comp, nodes, i, j - 1, f);
    }
  }

  ghost predicate Within(s: set<Node>, chain: seq<Node>) { forall x | x in chain :: x in s }

  /** The search records chains of allowed nodes only. */
  lemma {:induction false} FrameStaysWithin(g: Graph, cap: nat, allowed: set<Node>, p: seq<Node>, f: Found, chain: seq<Node>)
    requires p != [] && Within(allowed, p) && chain in Frame(g, cap, allowed, p, f).chains
    ensures chain in f.chains || Within(allowed, chain)
    decreases allowed - Elements(p), 1, 0
  {
    hide Within, Key;
    var cur := p[|p| - 1];
    if |f.chains| < cap && cur in g {
      LoopStaysWithin(g, cap, allowed, p, g[cur], |g[cur]|, f, chain);
    }
  }

  lemma {:induction false} LoopStaysWithin(g: Graph, cap: nat, allowed: set<Node>, p: seq<Node>, succs: seq<Node>,
                                           i: nat, f: Found, chain: seq<Node>)
    requires p != [] && i <= |succs| && Within(allowed, p)
    requires chain in FrameLoop(g, cap, allowed, p, succs, i, f).chains
    ensures chain in f.chains || Within(allowed, chain)
    decreases allowed - Elements(p), 0, i
  {
    hide Within, Key, Elements;
    if i > 0 {
      var before, nxt := FrameLoop(g, cap, allowed, p, succs, i - 1, f), succs[i - 1];
      if chain in before.chains {
        LoopStaysWithin(g, cap, allowed, p, succs, i - 1, f, chain);
      } else if nxt == p[0] {
        ClosedWithin(allowed, p, nxt);
      } else {
        Shrinks(allowed, p, nxt);
        ClosedWithin(allowed, p, nxt);
        FrameStaysWithin(g, cap, allowed, p + [nxt], before, chain);
      }
    }
  }

  lemma ClosedWithin(allowed: set<Node>, p: seq<Node>, w: Node)
    requires Within(allowed, p) && (w in p || w in allowed)
    ensures Within(allowed, p + [w])
  {
  }

  lemma {:induction false} StartsStayWithin(g: Graph, cap: nat, comp: set<Node>, nodes: seq<Node>, i: nat, f: Found,
                                            chain: seq<Node>)
    requires i <= |nodes| && (forall x | x in nodes :: x in comp)
    requires chain in StartsRun(g, cap, comp, nodes, i, f).chains
    ensures chain in f.chains || Within(comp, chain)
  {
    hide Frame;
    if i > 0 {
      var before, start := StartsRun(g, cap, comp, nodes, i - 1, f), nodes[i - 1];
      StartIsAllowed(comp, start);
      FrameStaysWithin(g, cap, From(comp, start), [start], before, chain);
      if chain in before.chains {
        StartsStayWithin(g, cap, comp, nodes, i - 1, f, chain);
      }
    }
  }

  lemma StartIsAllowed(comp: set<Node>, start: Node)
    requires start in comp
    ensures Within(From(comp, start), [start]) && From(comp, start) <= comp
  {
    StringOrder();
  }

  // ----- a component that overruns the cap by its size less one

  /** Each node leads to the next and to the first. */
  ghost predicate Ladder(g: Graph, ns: seq<Node>) {
    && ns != [] && Ascending(ns)
    && forall i | 0 <= i < |ns| :: ns[i] in g && g[ns[i]] == NextAndFirst(ns, i)
  }

  function NextAndFirst(ns: seq<Node>, i: nat): seq<Node>
    requires i < |ns|
  {
    if i + 1 < |ns| then [ns[i + 1], ns[0]] else [ns[0]]
  }

  /** No path along the ladder has been seen to close. */
  ghost predicate Unseen(ns: seq<Node>, k: nat, seen: set<seq<Node>>) {
    forall j | k <= j <= |ns| && j > 0 :: Key(ns[..j]) !in seen
  }

  lemma KeyLength(c: seq<Node>)
    requires c != []
    ensures |Key(c)| == |c|
  {
    var key := Key(c);
    assert Similar(c, key);
  }

  /** Going down the ladder one short of the cap, the last frame reaches it and each frame above records its own cycle. */
  lemma {:induction false} LadderFrame(g: Graph, cap: nat, allowed: set<Node>, ns: seq<Node>, k: nat, f: Found)
    requires Ladder(g, ns) && 0 < k <= |ns| && forall i | 0 <= i < |ns| :: ns[i] in allowed
    requires |f.chains| + 1 == cap && Unseen(ns, k, f.seen)
    ensures var r := Frame(g, cap, allowed, ns[..k], f);
            && |r.chains| == cap + |ns| - k
            && forall key | key in r.seen && key !in f.seen :: |key| >= k
    decreases |ns| - k
  {
    hide Key, SortedBy, Distinct, Unseen;
    var p := ns[..k];
    var cur, succs := p[k - 1], g[ns[k - 1]];
    assert cur == ns[k - 1] && p[0] == ns[0];
    KeyLength(p);
    UnseenAt(ns, k, f.seen);
    if k == |ns| {
      assert p == ns;
      OneSuccessor(g, cap, allowed, p, succs, f);
    } else {
      NextRung(ns, k);
      UnseenRest(ns, k, f.seen);
      LadderFrame(g, cap, allowed, ns, k + 1, f);
      TwoSuccessors(g, cap, allowed, p, succs, f);
    }
  }

  lemma UnseenAt(ns: seq<Node>, k: nat, seen: set<seq<Node>>)
    requires Unseen(ns, k, seen) && 0 < k <= |ns|
    ensures Key(ns[..k]) !in seen
  {
    hide Key;
  }

  lemma UnseenRest(ns: seq<Node>, k: nat, seen: set<seq<Node>>)
    requires Unseen(ns, k, seen) && k < |ns|
    ensures Unseen(ns, k + 1, seen)
  {
    hide Key;
  }

  lemma NextRung(ns: seq<Node>, k: nat)
    requires Distinct(ns) && 0 < k < |ns|
    ensures ns[..k] + [ns[k]] == ns[..k + 1] && ns[k] !in ns[..k] && ns[k] != ns[0]
  {
  }

  lemma OneSuccessor(g: Graph, cap: nat, allowed: set<Node>, p: seq<Node>, succs: seq<Node>, f: Found)
    requires p != [] && p[|p| - 1] in g && g[p[|p| - 1]] == succs == [p[0]] && |f.chains| < cap
    ensures Frame(g, cap, allowed, p, f) == Record(f, p, p[0])
  {
    hide Key;
    assert FrameLoop(g, cap, allowed, p, succs, 0, f) == f;
    assert FrameLoop(g, cap, allowed, p, succs, 1, f) == Record(f, p, p[0]);
  }

  lemma TwoSuccessors(g: Graph, cap: nat, allowed: set<Node>, p: seq<Node>, succs: seq<Node>, f: Found)
    requires p != [] && p[|p| - 1] in g && g[p[|p| - 1]] == succs && |f.chains| < cap
    requires |succs| == 2 && succs[1] == p[0] != succs[0] && succs[0] in allowed && succs[0] !in p
    ensures Frame(g, cap, allowed, p, f) == Record(Frame(g, cap, allowed, p + [succs[0]], f), p, p[0])
  {
    hide Key;
    assert FrameLoop(g, cap, allowed, p, succs, 0, f) == f;
    assert FrameLoop(g, cap, allowed, p, succs, 1, f) == Frame(g, cap, allowed, p + [succs[0]], f);
    assert FrameLoop(g, cap, allowed, p, succs, 2, f) == Record(Frame(g, cap, allowed, p + [succs[0]], f), p, p[0]);
  }

  /** The search of a ladder that begins one short of the cap ends with the cap and the ladder's size less one. */
  lemma CapIsOverrun(g: Graph, cap: nat, ns: seq<Node>, f: Found)
    requires Ladder(g, ns) && |f.chains| + 1 == cap && Unseen(ns, 1, f.seen)
    ensures |StartsRun(g, cap, Elements(ns), ns, |ns|, f).chains| == cap + |ns| - 1
  {
    hide Frame, SortedBy, Distinct, StringLe, Unseen;
    var comp, start := Elements(ns), ns[0];
    forall i | 0 <= i < |ns| ensures ns[i] in From(comp, start) {
      StartIsLeast(ns, i);
    }
    LadderFrame(g, cap, From(comp, start), ns, 1, f);
    assert ns[..1] == [start];
    assert StartsRun(g, cap, comp, ns, 0, f) == f;
    CappedStays(g, cap, comp, ns, 1, |ns|, f);
  }

  lemma StartIsLeast(ns: seq<Node>, i: nat)
    requires SortedBy(StringLe, ns) && i < |ns|
    ensures StringLe(ns[0], ns[i])
  {
    hide StringLe;
    if i == 0 {
      StringOrder();
    }
  }

  // ----- there is such a component of every size

  function Rung(i: nat): Node { seq(i, _ => 'a') }

  function Rungs(n: nat): seq<Node> { seq(n, i requires 0 <= i < n => Rung(i)) }

  function LadderGraph(n: nat): Graph {
    map x | x in Rungs(n) :: if |x| + 1 < n then [Rung(|x| + 1), Rung(0)] else [Rung(0)]
  }

  lemma {:induction false} RungsAscend(i: nat, j: nat)
    requires i <= j
    ensures StringLe(Rung(i), Rung(j))
  {
    if i > 0 {
      RungsAscend(i - 1, j - 1);
      assert Rung(i)[1..] == Rung(i - 1) && Rung(j)[1..] == Rung(j - 1);
    }
  }

  lemma RungsAreAscending(n: nat)
    ensures Ascending(Rungs(n))
  {
    hide StringLe, Rung;
    forall i, j | 0 <= i < j < n ensures StringLe(Rungs(n)[i], Rungs(n)[j]) && Rungs(n)[i] != Rungs(n)[j] {
      RungsAscend(i, j);
      RungsDiffer(i, j);
    }
  }

  lemma RungsDiffer(i: nat, j: nat)
    requires i < j
    ensures Rung(i) != Rung(j)
  {
    assert |Rung(i)| == i && |Rung(j)| == j;
  }

  lemma LadderExists(n: nat)
    requires n > 0
    ensures Ladder(LadderGraph(n), Rungs(n)) && LadderGraph(n).Keys == Elements(Rungs(n))
  {
    hide Ascending;
    RungsAreAscending(n);
    var ns, g := Rungs(n), LadderGraph(n);
    forall i | 0 <= i < n ensures ns[i] in g && g[ns[i]] == NextAndFirst(ns, i) {
      assert ns[i] == Rung(i) && |ns[i]| == i;
    }
  }

  lemma LadderEdges(g: Graph, ns: seq<Node>, i: nat)
    requires Ladder(g, ns) && i < |ns|
    ensures ns[0] in g && Edge(g, ns[i], ns[0]) && (i + 1 < |ns| ==> Edge(g, ns[i], ns[i + 1]))
  {
    hide Ascending;
    assert g[ns[i]] == NextAndFirst(ns, i);
    assert ns[0] in g && NextAndFirst(ns, i)[|NextAndFirst(ns, i)| - 1] == ns[0];
    assert i + 1 < |ns| ==> ns[i + 1] in g && NextAndFirst(ns, i)[0] == ns[i + 1];
  }

  lemma {:induction false} LadderReaches(g: Graph, ns: seq<Node>, i: nat)
    requires Ladder(g, ns) && i < |ns|
    ensures Reach(g, ns[0], ns[i]) && Reach(g, ns[i], ns[0])
  {
    hide Reach, Ladder;
    LadderEdges(g, ns, i);
    ReachEdge(g, ns[i], ns[0]);
    if i == 0 {
      ReachSelf(g, ns[0]);
    } else {
      LadderReaches(g, ns, i - 1);
      LadderEdges(g, ns, i - 1);
      ReachEdge(g, ns[i - 1], ns[i]);
      ReachTransitive(g, ns[0], ns[i - 1], ns[i]);
    }
  }

  lemma LadderIsComponent(g: Graph, ns: seq<Node>)
    requires Ladder(g, ns) && g.Keys == Elements(ns)
    ensures IsComponent(g, ns)
  {
    hide Reach, Distinct, SortedBy;
    forall x, y | x in ns && y in ns ensures Reach(g, x, y) {
      RungsReach(g, ns, x, y);
    }
    forall x ensures x in g <==> x in ns {
      assert x in Elements(ns) <==> x in ns;
    }
  }

  lemma RungsReach(g: Graph, ns: seq<Node>, x: Node, y: Node)
    requires Ladder(g, ns) && x in ns && y in ns
    ensures Reach(g, x, y)
  {
    hide Reach, Ladder;
    var i :| 0 <= i < |ns| && ns[i] == x;
    var j :| 0 <= j < |ns| && ns[j] == y;
    LadderReaches(g, ns, i);
    LadderReaches(g, ns, j);
    ReachTransitive(g, x, ns[0], y);
  }

  /** So for every size the overshoot of `size - 1` is met, here with a cap of 1 and nothing found before. */
  lemma OvershootIsReached(n: nat)
    requires n > 0
    ensures var g, ns := LadderGraph(n), Rungs(n);
            && |ns| == n && IsComponent(g, ns)
            && |StartsRun(g, 1, Elements(ns), ns, n, Found([], {})).chains| == 1 + n - 1
  {
    hide Ladder, IsComponent, StartsRun, LadderGraph;
    LadderExists(n);
    LadderIsComponent(LadderGraph(n), Rungs(n));
    CapIsOverrun(LadderGraph(n), 1, Rungs(n), Found([], {}));
  }
}
