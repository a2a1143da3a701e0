// `enumerate_cycles`: a backtracking search inside each cyclic component, from every start node,
// through nodes no smaller than the start, with one record per key and a soft cap on the records.
module CycleEnumeration {
  import opened Ordering
  import opened Graphs
  import opened StronglyConnected
  import opened CycleKeys
  import opened CycleCap

  const MAX_CYCLES: nat := 5000

  // ----- what the result should be

  /** A chain repeats its first node at the end; its body does not. */
  function Body(chain: seq<Node>): seq<Node> {
    if chain == [] then [] else chain[..|chain| - 1]
  }

  /** A closed walk over distinct nodes that starts and ends at the least of them. */
  ghost predicate Genuine(g: Graph, chain: seq<Node>) {
    && |chain| >= 2 && chain[|chain| - 1] == chain[0]
    && ElementaryCycle(g, Body(chain))
    && forall x | x in chain :: StringLe(chain[0], x)
  }

  ghost function KeyOf(chain: seq<Node>): seq<Node> {
    if |chain| < 2 then [] else Key(Body(chain))
  }

  /** `seen` holds exactly the keys of the recorded chains, and no key was recorded twice. */
  ghost predicate Ledger(g: Graph, found: seq<seq<Node>>, seen: set<seq<Node>>) {
    && (forall chain | chain in found :: Genuine(g, chain) && KeyOf(chain) in seen)
    && (forall key | key in seen :: exists chain :: chain in found && KeyOf(chain) == key)
    && (forall i, j | 0 <= i < j < |found| :: KeyOf(found[i]) != KeyOf(found[j]))
  }

  ghost predicate Candidate(g: Graph, allowed: set<Node>, c: seq<Node>) {
    ElementaryCycle(g, c) && forall x | x in c :: x in allowed
  }

  /** Every cycle through allowed nodes that begins with the path `p` is known. */
  ghost predicate CompleteFrom(g: Graph, allowed: set<Node>, p: seq<Node>, seen: set<seq<Node>>) {
    forall c | Candidate(g, allowed, c) && p <= c :: Key(c) in seen
  }

  // ----- one frame of the search

  /** `allowed` holds the nodes of the component from the start node on. */
  ghost predicate Allows(comp: set<Node>, order: map<Node, nat>, start: Node, allowed: set<Node>) {
    && (forall x :: x in allowed <==> x in comp && x in order && start in order && order[x] >= order[start])
    && (forall x | x in allowed :: StringLe(start, x))
  }

  lemma AllowsIff(comp: set<Node>, order: map<Node, nat>, start: Node, allowed: set<Node>, x: Node)
    requires Allows(comp, order, start, allowed)
    ensures x in allowed <==> x in comp && x in order && start in order && order[x] >= order[start]
  {
  }

  ghost predicate OnPath(g: Graph, allowed: set<Node>, start: Node, p: seq<Node>) {
    Walk(g, p) && Distinct(p) && p[0] == start && forall x | x in p :: x in allowed
  }

  /** The node a cycle visits after its first `n`. */
  function Next(c: seq<Node>, n: nat): Node
    requires c != [] && n <= |c|
  {
    if n < |c| then c[n] else c[0]
  }

  ghost predicate ContinuesWith(g: Graph, allowed: set<Node>, p: seq<Node>, c: seq<Node>, w: Node) {
    Candidate(g, allowed, c) && p <= c && Next(c, |p|) == w
  }

  /** Every cycle through allowed nodes that goes on from the path `p` to `w` is known. */
  ghost predicate KnownThrough(g: Graph, allowed: set<Node>, p: seq<Node>, w: Node, seen: set<seq<Node>>) {
    forall c | ContinuesWith(g, allowed, p, c, w) :: Key(c) in seen
  }

  /** As `CompleteFrom`, for the cycles that go on to one of the first `k` successors. */
  ghost predicate PartlyComplete(g: Graph, allowed: set<Node>, p: seq<Node>, succs: seq<Node>, k: nat,
                                 seen: set<seq<Node>>)
    requires k <= |succs|
  {
    forall j | 0 <= j < k :: KnownThrough(g, allowed, p, succs[j], seen)
  }

  lemma PartlyCompleteGrows(g: Graph, allowed: set<Node>, p: seq<Node>, succs: seq<Node>, k: nat,
                            seen: set<seq<Node>>, seen': set<seq<Node>>)
    requires k < |succs| && seen <= seen'
    requires PartlyComplete(g, allowed, p, succs, k, seen)
    requires KnownThrough(g, allowed, p, succs[k], seen')
    ensures PartlyComplete(g, allowed, p, succs, k + 1, seen')
  {
  }

  lemma FrameComplete(g: Graph, allowed: set<Node>, p: seq<Node>, seen: set<seq<Node>>)
    requires p != [] && p[|p| - 1] in g
    requires var succs := g[p[|p| - 1]]; PartlyComplete(g, allowed, p, succs, |succs|, seen)
    ensures CompleteFrom(g, allowed, p, seen)
  {
    forall c | Candidate(g, allowed, c) && p <= c ensures Key(c) in seen {
      var v, w := p[|p| - 1], Next(c, |p|);
      assert c[|p| - 1] == v;
      assert Edge(g, v, w);
      var j :| 0 <= j < |g[v]| && g[v][j] == w;
      assert KnownThrough(g, allowed, p, g[v][j], seen) && ContinuesWith(g, allowed, p, c, g[v][j]);
    }
  }

  /** The successor is outside the component, already on the path, or smaller than the start: no cycle goes on there. */
  lemma NothingContinues(g: Graph, allowed: set<Node>, start: Node, p: seq<Node>, w: Node, seen: set<seq<Node>>)
    requires OnPath(g, allowed, start, p)
    requires w != start && (w !in allowed || w in p)
    ensures KnownThrough(g, allowed, p, w, seen)
  {
    forall c ensures !ContinuesWith(g, allowed, p, c, w) {
      DoesNotContinue(g, allowed, start, p, w, c);
    }
  }

  lemma DoesNotContinue(g: Graph, allowed: set<Node>, start: Node, p: seq<Node>, w: Node, c: seq<Node>)
    requires OnPath(g, allowed, start, p)
    requires w != start && (w !in allowed || w in p)
    ensures !ContinuesWith(g, allowed, p, c, w)
  {
    if Candidate(g, allowed, c) && p <= c && w in p {
      var i :| 0 <= i < |p| && p[i] == w;
      assert c[i] == w && c[0] == start;
    }
  }

  /** The successor is the start: only the path itself is closed. */
  lemma OnlyPathCloses(g: Graph, allowed: set<Node>, start: Node, p: seq<Node>, seen: set<seq<Node>>)
    requires OnPath(g, allowed, start, p) && Key(p) in seen
    ensures KnownThrough(g, allowed, p, start, seen)
  {
    forall c | ContinuesWith(g, allowed, p, c, start) ensures c == p {
      assert c[0] == start;
    }
  }

  /** The successor extends the path. */
  lemma ContinuesBelow(g: Graph, allowed: set<Node>, start: Node, p: seq<Node>, w: Node, seen: set<seq<Node>>)
    requires OnPath(g, allowed, start, p) && w != start
    requires CompleteFrom(g, allowed, p + [w], seen)
    ensures KnownThrough(g, allowed, p, w, seen)
  {
    forall c | ContinuesWith(g, allowed, p, c, w) ensures p + [w] <= c {
      assert c[0] == p[0];
    }
  }

  lemma PathExtends(g: Graph, allowed: set<Node>, start: Node, p: seq<Node>, w: Node)
    requires OnPath(g, allowed, start, p)
    requires Edge(g, p[|p| - 1], w) && w in allowed && w !in p
    ensures OnPath(g, allowed, start, p + [w])
  {
  }

  lemma PathFits(g: Graph, allowed: set<Node>, start: Node, p: seq<Node>)
    requires OnPath(g, allowed, start, p)
    ensures p != [] && p[|p| - 1] in g && |p| <= |allowed|
  {
    DistinctCount(p);
    SubsetSize(Elements(p), allowed);
  }

  lemma PathBecomesChain(g: Graph, comp: set<Node>, order: map<Node, nat>, allowed: set<Node>, start: Node,
                         p: seq<Node>)
    requires OnPath(g, allowed, start, p) && Edge(g, p[|p| - 1], start)
    requires Allows(comp, order, start, allowed)
    ensures Genuine(g, p + [start]) && Body(p + [start]) == p && KeyOf(p + [start]) == Key(p)
  {
    hide StringLe;
    assert Body(p + [start]) == p;
    assert start in p;
  }

  lemma LedgerRecords(g: Graph, found: seq<seq<Node>>, seen: set<seq<Node>>, chain: seq<Node>)
    requires Ledger(g, found, seen)
    requires Genuine(g, chain) && KeyOf(chain) !in seen
    ensures Ledger(g, found + [chain], seen + {KeyOf(chain)})
  {
    hide Genuine, KeyOf;
    var found' := found + [chain];
    forall key | key in seen + {KeyOf(chain)} ensures exists d :: d in found' && KeyOf(d) == key {
      if key == KeyOf(chain) {
        assert chain in found';
      } else {
        var d :| d in found && KeyOf(d) == key;
        assert d in found';
      }
    }
  }

  function Max(a: int, b: int): int { if a < b then b else a }

  class CycleSearch {
    const graph: Graph
    const maxCycles: nat
    var allCycles: seq<seq<Node>>
    var seen: set<seq<Node>>
    var stack: seq<Node>
    var visited: set<Node>

    ghost function Now(): Found
      reads this
    {
      Found(allCycles, seen)
    }

    constructor (g: Graph, cap: nat)
      ensures graph == g && maxCycles == cap && allCycles == [] && seen == {}
    {
      graph, maxCycles := g, cap;
      allCycles, seen, stack, visited := [], {}, [], {};
    }

    /** The body of the loop over the components. */
    method SearchComponent(comp: seq<Node>)
      requires Ledger(graph, allCycles, seen)
      requires comp != [] && Ascending(comp) && forall x | x in comp :: x in graph
      modifies this
      ensures Ledger(graph, allCycles, seen) && old(allCycles) <= allCycles && old(seen) <= seen
      ensures |allCycles| < maxCycles ==> CompleteIn(graph, Elements(comp), seen)
      ensures |allCycles| <= Max(|old(allCycles)|, maxCycles + |comp| - 1)
      ensures Now() == StartsRun(graph, maxCycles, Elements(comp), comp, |comp|, old(Now()))
    {
      hide Allows, Ledger, CompleteIn, CompleteFor, CompleteAt, CompleteFrom, OnPath, StringLe, Ranks, SortedBy,
           Frame, From, Distinct;
      var compSet := Elements(comp);
      DistinctCount(comp);
      var nodes := SortedElements(compSet);
      SortedAlready(comp, nodes);
      var order := Ranks(nodes);
      NoStartYet(graph, compSet, nodes, seen);
      for i := 0 to |nodes|
        invariant Ledger(graph, allCycles, seen)
        invariant old(allCycles) <= allCycles && old(seen) <= seen
        invariant |allCycles| < maxCycles ==> CompleteFor(graph, compSet, nodes, i, seen)
        invariant |allCycles| <= Max(|old(allCycles)|, maxCycles + |comp| - 1)
        invariant Now() == StartsRun(graph, maxCycles, compSet, nodes, i, old(Now()))
      {
        var start := nodes[i];
        assert start in Elements(nodes);
        ghost var allowed := From(compSet, start);
        ghost var seen0 := seen;
        FromStartOn(compSet, nodes, start);
        StartOnPath(graph, allowed, start);
        stack := [start];
        visited := {start};
        Dfs(start, compSet, order, start, allowed);
        if |allCycles| >= maxCycles {
          CappedStays(graph, maxCycles, compSet, nodes, i + 1, |nodes|, old(Now()));
          return;
        }
        StartDone(graph, compSet, start, seen);
        CompleteForGrows(graph, compSet, nodes, i, seen0, seen);
      }
      if |allCycles| < maxCycles {
        AllStartsDone(graph, compSet, nodes, seen);
      }
    }

    method Dfs(cur: Node, comp: set<Node>, order: map<Node, nat>, start: Node, ghost allowed: set<Node>)
      requires OnPath(graph, allowed, start, stack) && visited == Elements(stack)
      requires stack != [] && stack[|stack| - 1] == cur && stack[0] == start
      requires Ledger(graph, allCycles, seen)
      requires comp <= order.Keys && comp <= graph.Keys && start in comp
      requires Allows(comp, order, start, allowed)
      modifies this
      decreases allowed - visited
      ensures stack == old(stack) && visited == old(visited)
      ensures Ledger(graph, allCycles, seen)
      ensures old(allCycles) <= allCycles && old(seen) <= seen
      ensures |allCycles| < maxCycles ==> CompleteFrom(graph, allowed, stack, seen)
      ensures |allCycles| <= Max(|old(allCycles)|, maxCycles + |allowed| - |stack|)
      ensures Now() == Frame(graph, maxCycles, allowed, stack, old(Now()))
    {
      hide Allows, OnPath, Ledger, CompleteFrom, PartlyComplete, KnownThrough, Genuine, KeyOf, Key, IsKey;
      PathFits(graph, allowed, start, stack);
      if |allCycles| >= maxCycles {
        return;
      }
      NothingYet(graph, allowed, stack, graph[cur], seen);
      for i := 0 to |graph[cur]|
        invariant stack == old(stack) && visited == old(visited)
        invariant Ledger(graph, allCycles, seen)
        invariant old(allCycles) <= allCycles && old(seen) <= seen
        invariant |allCycles| < maxCycles ==> PartlyComplete(graph, allowed, stack, graph[cur], i, seen)
        invariant |allCycles| + 1 <= maxCycles + |allowed| - |stack| + (if Key(stack) in seen then 1 else 0)
        invariant Now() == FrameLoop(graph, maxCycles, allowed, stack, graph[cur], i, old(Now()))
      {
        var nxt := graph[cur][i];
        ghost var seen0 := seen;
        AllowsIff(comp, order, start, allowed, nxt);
        if nxt !in comp {
          NothingContinues(graph, allowed, start, stack, nxt, seen);
        } else if nxt == start {
          RecordCycle(start, comp, order, allowed);
          OnlyPathCloses(graph, allowed, start, stack, seen);
        } else if nxt !in visited && order[nxt] >= order[start] {
          PathExtends(graph, allowed, start, stack, nxt);
          visited := visited + {nxt};
          stack := stack + [nxt];
          Dfs(nxt, comp, order, start, allowed);
          ghost var below := stack;
          stack := stack[..|stack| - 1];
          visited := visited - {nxt};
          assert stack == old(stack) && below == stack + [nxt];
          assert visited == old(visited);
          if |allCycles| < maxCycles {
            ContinuesBelow(graph, allowed, start, stack, nxt, seen);
          }
        } else {
          NothingContinues(graph, allowed, start, stack, nxt, seen);
        }
        if |allCycles| < maxCycles {
          PartlyCompleteGrows(graph, allowed, stack, graph[cur], i, seen0, seen);
        }
      }
      if |allCycles| < maxCycles {
        FrameComplete(graph, allowed, stack, seen);
      }
    }

    /** The branch of `dfs` for a successor that is the start. */
    method RecordCycle(start: Node, ghost comp: set<Node>, ghost order: map<Node, nat>, ghost allowed: set<Node>)
      requires OnPath(graph, allowed, start, stack) && stack != [] && Edge(graph, stack[|stack| - 1], start)
      requires Allows(comp, order, start, allowed) && Ledger(graph, allCycles, seen)
      modifies this`allCycles, this`seen
      ensures Ledger(graph, allCycles, seen)
      ensures Now() == Record(old(Now()), stack, start)
    {
      hide Allows, OnPath, Ledger, Genuine, KeyOf, IsKey, Edge;
      var cycNodes := stack;
      var key := CanonCycle(cycNodes);
      if key !in seen {
        PathBecomesChain(graph, comp, order, allowed, start, stack);
        LedgerRecords(graph, allCycles, seen, cycNodes + [start]);
        seen := seen + {key};
        allCycles := allCycles + [cycNodes + [start]];
      }
    }
  }

  lemma SortedAlready(comp: seq<Node>, nodes: seq<Node>)
    requires Ascending(comp) && Ascending(nodes) && Elements(comp) == Elements(nodes)
    ensures comp == nodes
  {
    hide Ascending;
    forall x ensures x in comp <==> x in nodes {
      assert x in comp <==> x in Elements(comp);
    }
    AscendingUnique(comp, nodes);
  }

  lemma StartOnPath(g: Graph, allowed: set<Node>, start: Node)
    requires start in g && start in allowed
    ensures OnPath(g, allowed, start, [start])
  {
  }

  lemma NoStartYet(g: Graph, comp: set<Node>, nodes: seq<Node>, seen: set<seq<Node>>)
    ensures CompleteFor(g, comp, nodes, 0, seen)
  {
  }

  function Ranks(nodes: seq<Node>): map<Node, nat>
    requires Distinct(nodes)
  {
    map i | 0 <= i < |nodes| :: nodes[i] := i as nat
  }

  /** Ranks in the sorted list order the nodes as `<=` does. */
  lemma RanksOrder(nodes: seq<Node>)
    requires Distinct(nodes) && SortedBy(StringLe, nodes)
    ensures var order := Ranks(nodes);
            && order.Keys == Elements(nodes)
            && forall x, y | x in order && y in order :: order[x] <= order[y] <==> StringLe(x, y)
  {
    hide StringLe;
    StringOrder();
    var order := Ranks(nodes);
    forall x, y | x in order && y in order ensures order[x] <= order[y] <==> StringLe(x, y) {
      var i :| 0 <= i < |nodes| && nodes[i] == x;
      var j :| 0 <= j < |nodes| && nodes[j] == y;
      assert order[x] == i && order[y] == j;
    }
  }

  lemma FromStartOn(comp: set<Node>, nodes: seq<Node>, start: Node)
    requires Distinct(nodes) && SortedBy(StringLe, nodes) && Elements(nodes) == comp && start in comp
    ensures var allowed := From(comp, start);
            comp <= Ranks(nodes).Keys && Allows(comp, Ranks(nodes), start, allowed) && start in allowed &&
            |allowed| <= |nodes|
  {
    hide StringLe;
    StringOrder();
    RanksOrder(nodes);
    assert StringLe(start, start);
    SubsetSize(From(comp, start), comp);
    DistinctCount(nodes);
  }

  lemma NothingYet(g: Graph, allowed: set<Node>, p: seq<Node>, succs: seq<Node>, seen: set<seq<Node>>)
    ensures PartlyComplete(g, allowed, p, succs, 0, seen)
  {
  }

  // ----- the search of one component

  /** Every cycle inside `comp` is known. */
  ghost predicate CompleteIn(g: Graph, comp: set<Node>, seen: set<seq<Node>>) {
    forall c | Candidate(g, comp, c) :: Key(c) in seen
  }

  /** Every cycle inside `comp` whose first node is its least and among the first `k` of `nodes` is known. */
  ghost predicate CompleteFor(g: Graph, comp: set<Node>, nodes: seq<Node>, k: nat, seen: set<seq<Node>>)
    requires k <= |nodes|
  {
    forall i | 0 <= i < k :: CompleteAt(g, comp, nodes[i], seen)
  }

  ghost predicate CompleteAt(g: Graph, comp: set<Node>, start: Node, seen: set<seq<Node>>) {
    forall c | Candidate(g, comp, c) && StartsAt(c, start) :: Key(c) in seen
  }

  ghost predicate StartsAt(c: seq<Node>, start: Node)
    requires c != []
  {
    c[0] == start && forall x | x in c :: StringLe(start, x)
  }

  lemma StartDone(g: Graph, comp: set<Node>, start: Node, seen: set<seq<Node>>)
    requires CompleteFrom(g, From(comp, start), [start], seen)
    ensures CompleteAt(g, comp, start, seen)
  {
    hide StringLe;
    forall c | Candidate(g, comp, c) && StartsAt(c, start) ensures Key(c) in seen {
      assert Candidate(g, From(comp, start), c) && [start] <= c;
    }
  }

  lemma CompleteForGrows(g: Graph, comp: set<Node>, nodes: seq<Node>, k: nat, seen: set<seq<Node>>,
                         seen': set<seq<Node>>)
    requires k < |nodes| && seen <= seen'
    requires CompleteFor(g, comp, nodes, k, seen) && CompleteAt(g, comp, nodes[k], seen')
    ensures CompleteFor(g, comp, nodes, k + 1, seen')
  {
    hide StringLe;
  }

  /** Each cycle can be turned so that it starts at its least node. */
  lemma TurnToLeast(g: Graph, comp: set<Node>, c: seq<Node>) returns (d: seq<Node>)
    requires Candidate(g, comp, c)
    ensures Candidate(g, comp, d) && StartsAt(d, d[0]) && Similar(c, d)
  {
    hide StringLe, Similar;
    StringOrder();
    assert c[0] in Elements(c);
    LeastExists(StringLe, Elements(c));
    var least :| least in Elements(c) && forall y | y in Elements(c) :: StringLe(least, y);
    var i :| 0 <= i < |c| && c[i] == least;
    d := Rotation(c, i);
    RotationIsCycle(g, c, i);
    SimilarRotation(c, i);
    forall x | x in d ensures StringLe(least, x) {
      assert x in Elements(c);
    }
  }

  lemma AllStartsDone(g: Graph, comp: set<Node>, nodes: seq<Node>, seen: set<seq<Node>>)
    requires Elements(nodes) == comp && CompleteFor(g, comp, nodes, |nodes|, seen)
    ensures CompleteIn(g, comp, seen)
  {
    hide StartsAt, Similar;
    forall c | Candidate(g, comp, c) ensures Key(c) in seen {
      var d := TurnToLeast(g, comp, c);
      SameKey(c, d);
      assert d[0] in d && d[0] in Elements(nodes);
      var i :| 0 <= i < |nodes| && nodes[i] == d[0];
      assert CompleteAt(g, comp, nodes[i], seen);
    }
  }

  // ----- the whole enumeration

  /** Some cycle may lie inside the component: it has two nodes, or one with an edge to itself. */
  predicate Cyclic(g: Graph, comp: seq<Node>) {
    |comp| > 1 || (comp != [] && comp[0] in g && comp[0] in g[comp[0]])
  }

  lemma WalkPart(g: Graph, p: seq<Node>, i: nat, j: nat)
    requires Walk(g, p) && i <= j < |p|
    ensures Reach(g, p[i], p[j])
  {
    assert WalkBetween(g, p[i..j + 1], p[i], p[j]);
  }

  lemma CycleNodesAreMutual(g: Graph, c: seq<Node>, x: Node)
    requires ElementaryCycle(g, c) && x in c
    ensures Reach(g, c[0], x) && Reach(g, x, c[0])
  {
    hide Reach;
    var i :| 0 <= i < |c| && c[i] == x;
    WalkPart(g, c, 0, i);
    WalkPart(g, c, i, |c| - 1);
    ReachEdge(g, c[|c| - 1], c[0]);
    ReachTransitive(g, x, c[|c| - 1], c[0]);
  }

  /** Every cycle lies inside one cyclic component. */
  lemma CycleHasComponent(g: Graph, comps: seq<seq<Node>>, c: seq<Node>) returns (comp: seq<Node>)
    requires Components(g, comps) && Members(comps) == g.Keys
    requires ElementaryCycle(g, c)
    ensures comp in comps && Cyclic(g, comp) && Candidate(g, Elements(comp), c)
  {
    hide IsComponent, Disjoint, ReverseTopological, ElementaryCycle, Cyclic;
    CycleStarts(g, c);
    assert c[0] in Members(comps);
    comp :| comp in comps && c[0] in comp;
    var i :| 0 <= i < |comps| && comps[i] == comp;
    CycleStaysInComponent(g, comps[i], c);
  }

  lemma CycleStaysInComponent(g: Graph, comp: seq<Node>, c: seq<Node>)
    requires IsComponent(g, comp) && ElementaryCycle(g, c) && c[0] in comp
    ensures Cyclic(g, comp) && forall x | x in c :: x in comp
  {
    hide Reach, Walk, SortedBy, Distinct;
    CycleStarts(g, c);
    forall x | x in c ensures x in comp {
      CycleNodesAreMutual(g, c, x);
    }
    assert c[|c| - 1] in comp;
  }

  lemma CycleStarts(g: Graph, c: seq<Node>)
    requires ElementaryCycle(g, c)
    ensures c != [] && forall x | x in c :: x in g
  {
  }

  /** The nodes that reach `x` and are reached by it. */
  ghost function ComponentOf(g: Graph, x: Node): set<Node> {
    set y | y in g && Reach(g, x, y) && Reach(g, y, x)
  }

  lemma ComponentSize(g: Graph, c: seq<Node>, x: Node)
    requires IsComponent(g, c) && x in c
    ensures |c| == |ComponentOf(g, x)|
  {
    hide Reach;
    DistinctCount(c);
    assert Elements(c) == ComponentOf(g, x);
  }

  /** The cap is soft by at most the size of one component less one. */
  ghost predicate WithinCap(g: Graph, count: nat) {
    count < MAX_CYCLES || exists x :: x in g && count <= MAX_CYCLES + |ComponentOf(g, x)| - 1
  }

  ghost predicate WithinCapOf(comps: seq<seq<Node>>, count: nat) {
    count < MAX_CYCLES || exists c :: c in comps && c != [] && count <= MAX_CYCLES + |c| - 1
  }

  lemma CapOfComponents(g: Graph, comps: seq<seq<Node>>, count: nat)
    requires Components(g, comps) && WithinCapOf(comps, count)
    ensures WithinCap(g, count)
  {
    hide Reach, SortedBy, Distinct;
    if count >= MAX_CYCLES {
      var c :| c in comps && c != [] && count <= MAX_CYCLES + |c| - 1;
      var i :| 0 <= i < |comps| && comps[i] == c;
      assert IsComponent(g, comps[i]);
      assert c[0] in c && c[0] in g;
      ComponentSize(g, c, c[0]);
    }
  }

  /** What `enumerate_cycles` promises of its result. */
  ghost predicate Sound(g: Graph, cycles: seq<seq<Node>>) {
    forall chain | chain in cycles :: Genuine(g, chain)
  }

  ghost predicate NonRedundant(cycles: seq<seq<Node>>) {
    forall i, j | 0 <= i < j < |cycles| :: !Similar(Body(cycles[i]), Body(cycles[j]))
  }

  ghost predicate Complete(g: Graph, cycles: seq<seq<Node>>) {
    forall c | ElementaryCycle(g, c) :: exists chain :: chain in cycles && Similar(Body(chain), c)
  }

  lemma LedgerIsSound(g: Graph, found: seq<seq<Node>>, seen: set<seq<Node>>, cycles: seq<seq<Node>>)
    requires Ledger(g, found, seen) && multiset(cycles) == multiset(found)
    ensures Sound(g, cycles) && NonRedundant(cycles)
  {
    hide Genuine, Similar, KeyOf;
    SameItems(found, cycles);
    assert Distinct(found);
    DistinctPermutation(found, cycles);
    forall i, j | 0 <= i < j < |cycles| ensures !Similar(Body(cycles[i]), Body(cycles[j])) {
      KeysDiffer(g, found, seen, cycles[i], cycles[j]);
    }
  }

  lemma KeysDiffer(g: Graph, found: seq<seq<Node>>, seen: set<seq<Node>>, a: seq<Node>, b: seq<Node>)
    requires Ledger(g, found, seen) && a in found && b in found && a != b
    ensures !Similar(Body(a), Body(b))
  {
    hide Similar, StringLe;
    var i :| 0 <= i < |found| && found[i] == a;
    var j :| 0 <= j < |found| && found[j] == b;
    assert KeyOf(found[i]) != KeyOf(found[j]);
    assert Genuine(g, a) && Genuine(g, b);
    SameKey(Body(a), Body(b));
  }

  /** Every cycle inside the component has a chain that is a rotation of it or of its reversal. */
  ghost predicate CompleteOn(g: Graph, comp: seq<Node>, cycles: seq<seq<Node>>) {
    forall c | Candidate(g, Elements(comp), c) :: exists chain :: chain in cycles && Similar(Body(chain), c)
  }

  lemma KnownIsRecorded(g: Graph, comp: seq<Node>, found: seq<seq<Node>>, seen: set<seq<Node>>, cycles: seq<seq<Node>>)
    requires Ledger(g, found, seen) && CompleteIn(g, Elements(comp), seen) && forall d | d in found :: d in cycles
    ensures CompleteOn(g, comp, cycles)
  {
    hide Similar, StringLe, Elements;
    forall c | Candidate(g, Elements(comp), c) ensures exists chain :: chain in cycles && Similar(Body(chain), c) {
      assert Key(c) in seen;
      var chain :| chain in found && KeyOf(chain) == Key(c);
      assert Genuine(g, chain);
      SameKey(Body(chain), c);
    }
  }

  lemma LedgerIsComplete(g: Graph, comps: seq<seq<Node>>, cyclic: seq<seq<Node>>, found: seq<seq<Node>>,
                         seen: set<seq<Node>>, cycles: seq<seq<Node>>)
    requires Components(g, comps) && Members(comps) == g.Keys
    requires forall c | c in comps && Cyclic(g, c) :: c in cyclic
    requires forall c | c in cyclic :: CompleteIn(g, Elements(c), seen)
    requires Ledger(g, found, seen) && multiset(cycles) == multiset(found)
    ensures Complete(g, cycles)
  {
    hide Components, Reach, Similar, Members, Ledger, CompleteIn;
    SameItems(found, cycles);
    forall c | ElementaryCycle(g, c) ensures exists chain :: chain in cycles && Similar(Body(chain), c) {
      var comp := CycleHasComponent(g, comps, c);
      KnownIsRecorded(g, comp, found, seen, cycles);
    }
  }

  // ----- the order of the components

  /** The components that may hold a cycle, smaller ones first and equally large ones by their names. */
  ghost predicate InSearchOrder(g: Graph, ordered: seq<seq<Node>>) {
    && SortedBy(BySizeLe, ordered) && Distinct(ordered)
    && forall c :: c in ordered <==> IsComponent(g, c) && Cyclic(g, c)
  }

  ghost predicate Lies(ordered: seq<seq<Node>>, n: int, chain: seq<Node>) {
    exists k :: 0 <= k < n && k < |ordered| && Within(Elements(ordered[k]), chain)
  }

  /** The first `n` components are covered completely; the other chains lie in the next one, and the cap is reached. */
  ghost predicate Covers(g: Graph, ordered: seq<seq<Node>>, n: int, cycles: seq<seq<Node>>) {
    && 0 <= n <= |ordered| && (n < |ordered| ==> |cycles| >= MAX_CYCLES)
    && (forall k | 0 <= k < n :: CompleteOn(g, ordered[k], cycles))
    && (forall chain | chain in cycles :: Lies(ordered, n + 1, chain))
  }

  lemma SharedNodeSameComponent(g: Graph, a: seq<Node>, b: seq<Node>, x: Node)
    requires IsComponent(g, a) && IsComponent(g, b) && x in a && x in b
    ensures a == b
  {
    hide Reach, SortedBy, Distinct;
    forall y ensures y in a <==> y in b {
      assert y in a ==> y in g;
      assert y in b ==> y in g;
    }
    AscendingUnique(a, b);
  }

  /** Nothing but the components is in the list, every component is, and once only. */
  lemma ComponentsAreListed(g: Graph, comps: seq<seq<Node>>)
    requires Components(g, comps) && Members(comps) == g.Keys
    ensures Distinct(comps) && forall c :: c in comps <==> IsComponent(g, c)
  {
    hide IsComponent;
    forall c | IsComponent(g, c) ensures c in comps {
      ComponentStarts(g, c);
      assert c[0] in Members(comps);
      var d :| d in comps && c[0] in d;
      var i :| 0 <= i < |comps| && comps[i] == d;
      assert IsComponent(g, comps[i]);
      SharedNodeSameComponent(g, c, d, c[0]);
    }
    forall i, j | 0 <= i < j < |comps| ensures comps[i] != comps[j] {
      assert IsComponent(g, comps[i]);
      ComponentStarts(g, comps[i]);
      assert comps[i][0] in comps[i];
    }
  }

  lemma ComponentStarts(g: Graph, c: seq<Node>)
    requires IsComponent(g, c)
    ensures c != [] && c[0] in c && Ascending(c) && forall x | x in c :: x in g
  {
  }

  /** The filter for cyclic components, and their sorting. */
  method CyclicComponents(graph: Graph) returns (ordered: seq<seq<Node>>, ghost sccs: seq<seq<Node>>)
    ensures Components(graph, sccs) && Members(sccs) == graph.Keys
    ensures InSearchOrder(graph, ordered) && forall c :: c in ordered <==> c in sccs && Cyclic(graph, c)
  {
    hide Components, Members, SortedBy, BySizeLe, Cyclic, Distinct, IsComponent;
    var comps := StronglyConnectedComponents(graph);
    ComponentsAreListed(graph, comps);
    sccs := comps;
    var cyclicSccs: seq<seq<Node>> := [];
    NoneDistinct();
    for i := 0 to |comps|
      invariant forall c :: c in cyclicSccs <==> c in comps[..i] && Cyclic(graph, c)
      invariant Distinct(cyclicSccs)
    {
      assert comps[..i + 1] == comps[..i] + [comps[i]];
      if Cyclic(graph, comps[i]) {
        DistinctGrows(comps, i, cyclicSccs);
        cyclicSccs := cyclicSccs + [comps[i]];
      }
    }
    assert comps[..|comps|] == comps;
    BySizeOrder();
    ordered := Sorted(BySizeLe, cyclicSccs);
    SameItems(ordered, cyclicSccs);
    DistinctPermutation(cyclicSccs, ordered);
  }

  lemma NoneDistinct()
    ensures Distinct<seq<Node>>([])
  {
  }

  lemma DistinctGrows(comps: seq<seq<Node>>, i: nat, chosen: seq<seq<Node>>)
    requires Distinct(comps) && i < |comps| && Distinct(chosen) && forall c | c in chosen :: c in comps[..i]
    ensures Distinct(chosen + [comps[i]])
  {
    forall j | 0 <= j < |chosen| ensures chosen[j] != comps[i] {
      assert chosen[j] in comps[..i];
    }
  }

  method EnumerateCycles(graph: Graph) returns (cycles: seq<seq<Node>>)
    ensures SortedBy(ChainLe, cycles)
    ensures Sound(graph, cycles) && NonRedundant(cycles)
    ensures |cycles| < MAX_CYCLES ==> Complete(graph, cycles)
    ensures WithinCap(graph, |cycles|)
    ensures exists ordered, n :: InSearchOrder(graph, ordered) && Covers(graph, ordered, n, cycles)
  {
    hide Ledger, CompleteIn, Components, Members, SortedBy, Ascending, ChainLe, BySizeLe, Sound, NonRedundant, Complete,
         Cyclic, StartsRun, WithinCap, Elements, Within, InSearchOrder, IsComponent, CompleteOn;
    var ordered;
    ghost var sccs;
    ordered, sccs := CyclicComponents(graph);
    var search := new CycleSearch(graph, MAX_CYCLES);
    EmptyLedger(graph);
    ghost var done := 0;
    for i := 0 to |ordered|
      invariant search.graph == graph && search.maxCycles == MAX_CYCLES && fresh(search)
      invariant Ledger(graph, search.allCycles, search.seen)
      invariant |search.allCycles| < MAX_CYCLES && done == i
      invariant forall k | 0 <= k < i :: CompleteIn(graph, Elements(ordered[k]), search.seen)
      invariant forall chain | chain in search.allCycles :: Lies(ordered, i, chain)
    {
      ComponentIsUsable(graph, sccs, ordered[i]);
      ghost var found0 := search.Now();
      search.SearchComponent(ordered[i]);
      LiesFurther(graph, search.maxCycles, ordered, i, found0, search.Now());
      forall k | 0 <= k < i ensures CompleteIn(graph, Elements(ordered[k]), search.seen) {
        CompleteInGrows(graph, Elements(ordered[k]), found0.seen, search.seen);
      }
      if |search.allCycles| >= MAX_CYCLES {
        assert WithinCapOf(sccs, |search.allCycles|);
        break;
      }
      done := i + 1;
    }
    ChainOrder();
    cycles := Sorted(ChainLe, search.allCycles);
    SameItems(cycles, search.allCycles);
    CapOfComponents(graph, sccs, |cycles|);
    LedgerIsSound(graph, search.allCycles, search.seen, cycles);
    LedgerCovers(graph, ordered, done, search.allCycles, search.seen, cycles);
    if |cycles| < MAX_CYCLES {
      LedgerIsComplete(graph, sccs, ordered, search.allCycles, search.seen, cycles);
    }
  }

  lemma LiesFurther(g: Graph, cap: nat, ordered: seq<seq<Node>>, i: nat, f: Found, f': Found)
    requires i < |ordered| && f' == StartsRun(g, cap, Elements(ordered[i]), ordered[i], |ordered[i]|, f)
    requires forall chain | chain in f.chains :: Lies(ordered, i, chain)
    ensures forall chain | chain in f'.chains :: Lies(ordered, i + 1, chain)
  {
    hide StartsRun, Within;
    forall chain | chain in f'.chains ensures Lies(ordered, i + 1, chain) {
      StartsStayWithin(g, cap, Elements(ordered[i]), ordered[i], |ordered[i]|, f, chain);
      if chain in f.chains {
        assert Lies(ordered, i, chain);
      }
    }
  }

  lemma LedgerCovers(g: Graph, ordered: seq<seq<Node>>, n: nat, found: seq<seq<Node>>, seen: set<seq<Node>>,
                     cycles: seq<seq<Node>>)
    requires Ledger(g, found, seen) && multiset(cycles) == multiset(found)
    requires n <= |ordered| && (n < |ordered| ==> |cycles| >= MAX_CYCLES)
    requires forall k | 0 <= k < n :: CompleteIn(g, Elements(ordered[k]), seen)
    requires forall chain | chain in found :: Lies(ordered, n + 1, chain)
    ensures Covers(g, ordered, n, cycles)
  {
    hide Lies, Ledger, CompleteIn, CompleteOn;
    SameItems(found, cycles);
    forall k | 0 <= k < n ensures CompleteOn(g, ordered[k], cycles) {
      KnownIsRecorded(g, ordered[k], found, seen, cycles);
    }
  }

  lemma EmptyLedger(g: Graph)
    ensures Ledger(g, [], {})
  {
  }

  lemma ComponentIsUsable(g: Graph, comps: seq<seq<Node>>, c: seq<Node>)
    requires Components(g, comps) && c in comps
    ensures c != [] && Ascending(c) && forall x | x in c :: x in g
  {
    hide Reach, SortedBy;
    var i :| 0 <= i < |comps| && comps[i] == c;
    assert IsComponent(g, comps[i]);
  }

  lemma CompleteInGrows(g: Graph, comp: set<Node>, seen: set<seq<Node>>, seen': set<seq<Node>>)
    requires CompleteIn(g, comp, seen) && seen <= seen'
    ensures CompleteIn(g, comp, seen')
  {
    hide ElementaryCycle;
  }

  /** A report is empty exactly when the graph has no closed walk. */
  lemma EmptyMeansAcyclic(g: Graph, cycles: seq<seq<Node>>)
    requires Sound(g, cycles)
    requires |cycles| < MAX_CYCLES ==> Complete(g, cycles)
    ensures cycles == [] <==> !exists p :: ClosedWalk(g, p)
  {
    if cycles != [] {
      assert Genuine(g, cycles[0]);
      CycleIsClosedWalk(g, Body(cycles[0]));
    } else {
      forall p | ClosedWalk(g, p) ensures false {
        var c := ClosedWalkHasCycle(g, p);
      }
    }
  }

  /** All the nodes of a reported chain reach each other. */
  lemma ChainInsideComponent(g: Graph, chain: seq<Node>, x: Node)
    requires Genuine(g, chain) && x in chain
    ensures x in ComponentOf(g, chain[0])
  {
    hide StringLe;
    assert chain == Body(chain) + [chain[0]];
    CycleNodesAreMutual(g, Body(chain), x);
    CycleStarts(g, Body(chain));
  }
}
