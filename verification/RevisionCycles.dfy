// The three-colour search of `_detect_cycles` over the down-revision graph.
module RevisionCycles {
  import opened Ordering
  import opened Graphs

  datatype RevisionFile = RevisionFile(name: string, revision: string, downRevisions: seq<string>)

  type Revisions = map<string, RevisionFile>

  /** An edge leads from a revision to a parent; parents outside the dictionary do not count. */
  function DownGraph(revisions: Revisions): Graph {
    map r | r in revisions :: revisions[r].downRevisions
  }

  /** A path without repetition whose last entry closes a cycle of down-revisions. */
  ghost predicate CycleReport(g: Graph, path: seq<string>) {
    && Walk(g, path) && Distinct(path[..|path| - 1])
    && exists i :: 0 <= i < |path| - 1 && path[i] == path[|path| - 1] && ElementaryCycle(g, path[i..|path| - 1])
  }

  /** The report was made at the edge from `x` to `y`. */
  predicate Closes(path: seq<string>, x: string, y: string) {
    |path| >= 2 && path[|path| - 2] == x && path[|path| - 1] == y
  }

  /** How many reports were made at the edge. */
  function Closings(issues: seq<seq<string>>, x: string, y: string): nat {
    if issues == [] then 0
    else Closings(issues[..|issues| - 1], x, y) + if Closes(issues[|issues| - 1], x, y) then 1 else 0
  }

  ghost function Listings(g: Graph, x: string, y: string): nat { if x in g then multiset(g[x])[y] else 0 }

  /**
   * In order of completion, an edge to an earlier revision is not reported, and any other is reported as often as it is
   * listed.
   */
  ghost predicate Tallied(g: Graph, order: seq<string>, issues: seq<seq<string>>) {
    forall i, y | 0 <= i < |order| && y in g ::
      Closings(issues, order[i], y) == if y in order[..i] then 0 else Listings(g, order[i], y)
  }

  /** Each report begins at the first of the keys that reaches the edge it was made at. */
  ghost predicate FromFirstKeys(g: Graph, keys: seq<string>, issues: seq<seq<string>>) {
    forall path | path in issues :: exists k :: 0 <= k < |keys| && FromKey(g, keys, k, path)
  }

  ghost predicate FromKey(g: Graph, keys: seq<string>, k: nat, path: seq<string>)
    requires k < |keys|
  {
    |path| >= 2 && path[0] == keys[k] && forall j | 0 <= j < k :: !Reach(g, keys[j], path[|path| - 2])
  }

  /** Every present parent comes before its child. */
  ghost predicate UpgradeOrder(g: Graph, order: seq<string>) {
    forall i, j | 0 <= i < |order| && 0 <= j < |order| && Edge(g, order[i], order[j]) :: j < i
  }

  // ----- what holds during the search

  ghost predicate Searching(g: Graph, stack: seq<string>, visiting: set<string>, visited: set<string>,
                            order: seq<string>, issues: seq<seq<string>>)
  {
    && (stack != [] ==> Walk(g, stack)) && Distinct(stack) && visiting == Elements(stack)
    && Distinct(order) && visited == Elements(order) && visited <= g.Keys
    && visiting !! visited
    && (forall path | path in issues :: CycleReport(g, path))
    && Tallied(g, order, issues) && TailsIn(issues, visiting + visited) && LeadInto(g, visited, visiting + visited)
  }

  /** Every report was made at an edge from one of these. */
  ghost predicate TailsIn(issues: seq<seq<string>>, s: set<string>) {
    forall path | path in issues :: |path| >= 2 && path[|path| - 2] in s
  }

  ghost predicate LeadInto(g: Graph, from: set<string>, to: set<string>) {
    forall x, y | x in from && Edge(g, x, y) :: y in to
  }

  /** With the first `n` parents of `v` handled: those on the stack were reported, and no others. */
  ghost predicate PartlyTallied(g: Graph, visiting: set<string>, issues: seq<seq<string>>, v: string, n: nat)
    requires v in g && n <= |g[v]|
  {
    forall y | y in g :: Closings(issues, v, y) == if y in visiting then multiset(g[v][..n])[y] else 0
  }

  /** Reports of a search that began at `root` and entered only new revisions. */
  ghost predicate NewReports(root: string, known: set<string>, issues: seq<seq<string>>) {
    forall path | path in issues :: |path| >= 2 && path[0] == root && path[|path| - 2] !in known
  }

  /** A call adds one report when the revision is on the stack, and otherwise reports of the search it leads to. */
  ghost predicate Returned(stack: seq<string>, visiting: set<string>, visited: set<string>, visited': set<string>,
                           issues: seq<seq<string>>, issues': seq<seq<string>>, v: string)
  {
    if v in visiting then issues' == issues + [stack + [v]]
    else v in visited' && issues <= issues' &&
         NewReports((stack + [v])[0], visiting + visited, issues'[|issues|..])
  }

  /** The first `n` parents of `v`, the last of `path`, are handled. */
  ghost predicate Scanned(g: Graph, path: seq<string>, visiting: set<string>, visited: set<string>, visited': set<string>,
                          issues: seq<seq<string>>, issues': seq<seq<string>>, v: string, n: nat)
  {
    && v in g && n <= |g[v]| && v in visiting && path != [] && path[|path| - 1] == v
    && PartlyTallied(g, visiting, issues', v, n)
    && issues <= issues' && NewReports(path[0], visiting - {v} + visited, issues'[|issues|..])
    && visited <= visited' && v !in visited'
    && forall k | 0 <= k < n && g[v][k] in g :: g[v][k] in visiting + visited'
  }

  lemma {:induction false} ClosingsOfMore(issues: seq<seq<string>>, more: seq<seq<string>>, x: string, y: string)
    ensures Closings(issues + more, x, y) == Closings(issues, x, y) + Closings(more, x, y)
  {
    hide Closes;
    if more == [] {
      assert issues + more == issues;
    } else {
      var n := |more| - 1;
      assert (issues + more)[..|issues + more| - 1] == issues + more[..n];
      ClosingsOfMore(issues, more[..n], x, y);
    }
  }

  lemma {:induction false} NoClosings(issues: seq<seq<string>>, s: set<string>, x: string, y: string)
    requires (forall path | path in issues :: |path| >= 2 && path[|path| - 2] in s) && x !in s
    ensures Closings(issues, x, y) == 0
  {
    if issues != [] {
      NoClosings(issues[..|issues| - 1], s, x, y);
      assert issues[|issues| - 1] in issues;
    }
  }

  lemma {:induction false} ClosingIsReport(issues: seq<seq<string>>, x: string, y: string)
    ensures Closings(issues, x, y) > 0 <==> exists path :: path in issues && Closes(path, x, y)
  {
    hide Closes;
    if issues != [] {
      var n := |issues| - 1;
      ClosingIsReport(issues[..n], x, y);
      assert issues == issues[..n] + [issues[n]];
    }
  }

  /** The revision is already on the stack. */
  lemma Reports(g: Graph, stack: seq<string>, visiting: set<string>, visited: set<string>, order: seq<string>,
                issues: seq<seq<string>>, v: string)
    requires Searching(g, stack, visiting, visited, order, issues)
    requires stack != [] && Edge(g, stack[|stack| - 1], v) && v in visiting
    ensures Searching(g, stack, visiting, visited, order, issues + [stack + [v]])
  {
    hide Walk, Distinct, CycleReport, LeadInto, Closes;
    ReportIsCycle(g, stack, v);
    var path := stack + [v];
    assert path[|path| - 2] == stack[|stack| - 1] && stack[|stack| - 1] in stack;
    forall i, y | 0 <= i < |order| && y in g
      ensures Closings(issues + [path], order[i], y) == Closings(issues, order[i], y)
    {
      assert order[i] in Elements(order);
      OneMoreClosing(issues, path, order[i], y);
    }
  }

  lemma OneMoreClosing(issues: seq<seq<string>>, path: seq<string>, x: string, y: string)
    ensures Closings(issues + [path], x, y) == Closings(issues, x, y) + if Closes(path, x, y) then 1 else 0
    ensures |path| >= 2 && path[|path| - 2] != x ==> !Closes(path, x, y)
  {
    assert (issues + [path])[..|issues|] == issues;
  }

  lemma ReportIsCycle(g: Graph, stack: seq<string>, v: string)
    requires stack != [] && Walk(g, stack) && Distinct(stack) && Edge(g, stack[|stack| - 1], v) && v in stack
    ensures CycleReport(g, stack + [v])
  {
    hide ElementaryCycle;
    var path := stack + [v];
    assert path[..|path| - 1] == stack;
    var i :| 0 <= i < |stack| && stack[i] == v;
    StackTailIsCycle(g, stack, i);
    assert path[i..|path| - 1] == stack[i..] && path[i] == path[|path| - 1];
  }

  lemma StackTailIsCycle(g: Graph, stack: seq<string>, i: nat)
    requires Walk(g, stack) && Distinct(stack) && i < |stack| && Edge(g, stack[|stack| - 1], stack[i])
    ensures ElementaryCycle(g, stack[i..])
  {
    hide Edge;
    var c := stack[i..];
    forall k | 0 <= k < |c| - 1 ensures Edge(g, c[k], c[k + 1]) {
      assert Edge(g, stack[i + k], stack[i + k + 1]);
    }
  }

  lemma Begins(g: Graph, stack: seq<string>, visiting: set<string>, visited: set<string>, order: seq<string>,
               issues: seq<seq<string>>, v: string)
    requires Searching(g, stack, visiting, visited, order, issues)
    requires stack != [] ==> Edge(g, stack[|stack| - 1], v)
    requires v in g && v !in visiting && v !in visited
    ensures Searching(g, stack + [v], visiting + {v}, visited, order, issues)
    ensures PartlyTallied(g, visiting + {v}, issues, v, 0)
  {
    hide CycleReport, Tallied;
    PushDistinct(stack, v);
    forall y ensures Closings(issues, v, y) == 0 {
      NoClosings(issues, visiting + visited, v, y);
    }
  }

  /** The parent is on the stack: the report is the one due for it. */
  lemma TallyReport(g: Graph, visiting: set<string>, issues: seq<seq<string>>, v: string, i: nat, path: seq<string>)
    requires v in g && i < |g[v]| && PartlyTallied(g, visiting, issues, v, i)
    requires g[v][i] in visiting && Closes(path, v, g[v][i])
    ensures PartlyTallied(g, visiting, issues + [path], v, i + 1)
  {
    assert g[v][..i + 1] == g[v][..i] + [g[v][i]];
    forall y ensures Closings(issues + [path], v, y) == Closings(issues, v, y) + if y == g[v][i] then 1 else 0 {
      OneMoreClosing(issues, path, v, y);
    }
  }

  /** The parent is unknown, or was finished by the time its search returned: nothing was due, and nothing reported. */
  lemma TallyNoReport(g: Graph, visiting: set<string>, issues: seq<seq<string>>, more: seq<seq<string>>, v: string, i: nat)
    requires v in g && i < |g[v]| && PartlyTallied(g, visiting, issues, v, i)
    requires g[v][i] !in visiting
    requires forall path | path in more :: |path| >= 2 && path[|path| - 2] != v
    ensures PartlyTallied(g, visiting, issues + more, v, i + 1)
  {
    assert g[v][..i + 1] == g[v][..i] + [g[v][i]];
    forall y ensures Closings(issues + more, v, y) == Closings(issues, v, y) {
      ClosingsOfMore(issues, more, v, y);
      NoClosings(more, set path | path in more && |path| >= 2 :: path[|path| - 2], v, y);
    }
  }

  lemma PushDistinct(s: seq<string>, v: string)
    requires Distinct(s)
    ensures v !in s <==> Distinct(s + [v])
    ensures Elements(s + [v]) == Elements(s) + {v}
  {
    if v in s {
      var i :| 0 <= i < |s| && s[i] == v;
      assert (s + [v])[i] == (s + [v])[|s|];
    }
  }

  lemma Ends(g: Graph, stack: seq<string>, visiting: set<string>, visited: set<string>, order: seq<string>,
             issues: seq<seq<string>>, v: string)
    requires Searching(g, stack + [v], visiting + {v}, visited, order, issues)
    requires v !in visiting && v in g
    requires PartlyTallied(g, visiting + {v}, issues, v, |g[v]|)
    requires LeadInto(g, {v}, visiting + {v} + visited)
    ensures Searching(g, stack, visiting, visited + {v}, order + [v], issues)
  {
    hide CycleReport, Tallied, PartlyTallied;
    var path := stack + [v];
    assert path[|stack|] == v;
    assert forall i | 0 <= i < |stack| :: path[i] == stack[i];
    forall i | 0 <= i < |stack| - 1 ensures Edge(g, stack[i], stack[i + 1]) {
      assert Edge(g, path[i], path[i + 1]);
    }
    PushDistinct(stack, v);
    PushDistinct(order, v);
    assert visiting + {v} + visited == visiting + (visited + {v});
    FinishTallied(g, visiting + {v}, order, issues, v);
  }

  lemma FinishTallied(g: Graph, visiting: set<string>, order: seq<string>, issues: seq<seq<string>>, v: string)
    requires Tallied(g, order, issues) && v in g && PartlyTallied(g, visiting, issues, v, |g[v]|)
    requires visiting !! Elements(order) && LeadInto(g, {v}, visiting + Elements(order))
    ensures Tallied(g, order + [v], issues)
  {
    var order' := order + [v];
    assert g[v][..|g[v]|] == g[v];
    forall i, y | 0 <= i < |order'| && y in g
      ensures Closings(issues, order'[i], y) == if y in order'[..i] then 0 else Listings(g, order'[i], y)
    {
      assert order'[..i] == order[..i];
      if i == |order| {
        assert order[..i] == order && order'[i] == v;
        assert y in order <==> y in Elements(order);
        assert y in g[v] <==> Edge(g, v, y);
      } else {
        assert order'[i] == order[i];
      }
    }
  }

  class CycleDetector {
    const revisions: Revisions
    var visiting: set<string>
    var visited: set<string>
    var stack: seq<string>
    var issues: seq<seq<string>>
    ghost var order: seq<string>  // the revisions in the order in which they entered `visited`

    ghost predicate Valid()
      reads this
    {
      Searching(DownGraph(revisions), stack, visiting, visited, order, issues)
    }

    constructor (revs: Revisions)
      ensures revisions == revs && Valid() && stack == [] && visiting == {} && visited == {} && issues == []
    {
      revisions := revs;
      visiting, visited, stack, issues, order := {}, {}, [], [], [];
    }

    method Dfs(revision: string)
      requires Valid() && revision in revisions
      requires stack != [] ==> Edge(DownGraph(revisions), stack[|stack| - 1], revision)
      modifies this
      decreases revisions.Keys - visiting
      ensures Valid()
      ensures stack == old(stack) && visiting == old(visiting)
      ensures old(visited) <= visited && old(order) <= order && old(issues) <= issues
      ensures Returned(stack, visiting, old(visited), visited, old(issues), issues, revision)
    {
      hide Searching, Scanned, Returned;
      ghost var g := DownGraph(revisions);
      if revision in visiting {
        StackOfVisiting(g, stack, visiting, visited, order, issues);
        Reports(g, stack, visiting, visited, order, issues, revision);
        issues := issues + [stack + [revision]];
        ReturnsReport(stack, visiting, visited, issues, revision);
        return;
      }
      if revision in visited {
        ReturnsNothing(stack, visiting, visited, issues, revision);
        return;
      }
      Begins(g, stack, visiting, visited, order, issues, revision);
      visiting := visiting + {revision};
      stack := stack + [revision];
      var node := revisions[revision];
      ghost var path := stack;
      NothingScanned(g, path, visiting, visited, issues, revision);
      for i := 0 to |node.downRevisions|
        invariant Valid() && stack == path && visiting == old(visiting) + {revision}
        invariant old(visited) <= visited && old(order) <= order && old(issues) <= issues
        invariant Scanned(g, path, visiting, old(visited), visited, old(issues), issues, revision, i)
      {
        var parent := node.downRevisions[i];
        ghost var visited0, issues0 := visited, issues;
        if parent in revisions {
          Dfs(parent);
          Apart(g, stack, visiting, visited, order, issues);
          ScanReturned(g, path, visiting, old(visited), visited0, visited, old(issues), issues0, issues, revision, i);
        } else {
          NotStacked(g, stack, visiting, visited, order, issues, parent);
          ScanUnknown(g, path, visiting, old(visited), visited, old(issues), issues, revision, i);
        }
      }
      ScanEnds(g, path, visiting, old(visited), visited, old(issues), issues, revision);
      Apart(g, stack, visiting, visited, order, issues);
      ghost var open, done := visiting, visited;
      Ends(g, old(stack), old(visiting), visited, order, issues, revision);
      stack := stack[..|stack| - 1];
      visiting := visiting - {revision};
      visited := visited + {revision};
      order := order + [revision];
      assert stack == old(stack) && visiting == old(visiting);
      assert visiting + {revision} == open && visited - {revision} == done;
      ScanReturns(g, path, stack, visiting, old(visited), visited, old(issues), issues, revision);
    }
  }

  lemma ReturnsReport(stack: seq<string>, visiting: set<string>, visited: set<string>, issues: seq<seq<string>>, v: string)
    requires v in visiting && issues != [] && issues[|issues| - 1] == stack + [v]
    ensures Returned(stack, visiting, visited, visited, issues[..|issues| - 1], issues, v)
  {
  }

  lemma ReturnsNothing(stack: seq<string>, visiting: set<string>, visited: set<string>, issues: seq<seq<string>>, v: string)
    requires v !in visiting && v in visited
    ensures Returned(stack, visiting, visited, visited, issues, issues, v)
  {
  }

  lemma NothingScanned(g: Graph, path: seq<string>, visiting: set<string>, visited: set<string>,
                       issues: seq<seq<string>>, v: string)
    requires v in g && v in visiting && v !in visited && path != [] && path[|path| - 1] == v
    requires PartlyTallied(g, visiting, issues, v, 0)
    ensures Scanned(g, path, visiting, visited, visited, issues, issues, v, 0)
  {
    hide PartlyTallied;
  }

  lemma ScanReturned(g: Graph, path: seq<string>, visiting: set<string>, visited: set<string>, visited0: set<string>,
                     visited': set<string>, issues: seq<seq<string>>, issues0: seq<seq<string>>,
                     issues': seq<seq<string>>, v: string, i: nat)
    requires Scanned(g, path, visiting, visited, visited0, issues, issues0, v, i)
    requires i < |g[v]| && Returned(path, visiting, visited0, visited', issues0, issues', g[v][i])
    requires visited0 <= visited' && issues0 <= issues' && v !in visited'
    ensures Scanned(g, path, visiting, visited, visited', issues, issues', v, i + 1)
  {
    hide PartlyTallied, NewReports;
    if g[v][i] in visiting {
      TallyReport(g, visiting, issues0, v, i, path + [g[v][i]]);
    } else {
      assert issues' == issues0 + issues'[|issues0|..];
      assert (path + [g[v][i]])[0] == path[0];
      AwayFrom(path[0], visiting + visited0, issues'[|issues0|..], v);
      TallyNoReport(g, visiting, issues0, issues'[|issues0|..], v, i);
    }
    ReportsAreNew(g, path, visiting, visited0, issues0, issues', v, i);
    FewerKnown(path[0], visiting - {v} + visited0, visiting - {v} + visited, issues'[|issues0|..]);
    JoinReports(path[0], visiting - {v} + visited, issues, issues0, issues');
  }

  lemma AwayFrom(root: string, known: set<string>, issues: seq<seq<string>>, v: string)
    requires NewReports(root, known, issues) && v in known
    ensures forall path | path in issues :: |path| >= 2 && path[|path| - 2] != v
  {
  }

  lemma FewerKnown(root: string, known: set<string>, fewer: set<string>, issues: seq<seq<string>>)
    requires NewReports(root, known, issues) && fewer <= known
    ensures NewReports(root, fewer, issues)
  {
  }

  lemma ReportsAreNew(g: Graph, path: seq<string>, visiting: set<string>, visited: set<string>,
                      issues: seq<seq<string>>, issues': seq<seq<string>>, v: string, i: nat)
    requires v in g && i < |g[v]| && path != [] && path[|path| - 1] == v && v !in visited && issues <= issues'
    requires if g[v][i] in visiting then issues' == issues + [path + [g[v][i]]]
             else NewReports((path + [g[v][i]])[0], visiting + visited, issues'[|issues|..])
    ensures NewReports(path[0], visiting - {v} + visited, issues'[|issues|..])
  {
    if g[v][i] in visiting {
      assert issues'[|issues|..] == [path + [g[v][i]]];
    }
  }

  lemma ScanUnknown(g: Graph, path: seq<string>, visiting: set<string>, visited: set<string>, visited': set<string>,
                    issues: seq<seq<string>>, issues': seq<seq<string>>, v: string, i: nat)
    requires Scanned(g, path, visiting, visited, visited', issues, issues', v, i)
    requires i < |g[v]| && g[v][i] !in visiting && g[v][i] !in g
    ensures Scanned(g, path, visiting, visited, visited', issues, issues', v, i + 1)
  {
    hide PartlyTallied, NewReports;
    TallyNoReport(g, visiting, issues', [], v, i);
    assert issues' + [] == issues';
  }

  lemma ScanEnds(g: Graph, path: seq<string>, visiting: set<string>, visited: set<string>, visited': set<string>,
                 issues: seq<seq<string>>, issues': seq<seq<string>>, v: string)
    requires v in g && Scanned(g, path, visiting, visited, visited', issues, issues', v, |g[v]|)
    ensures PartlyTallied(g, visiting, issues', v, |g[v]|) && LeadInto(g, {v}, visiting + visited')
  {
    hide PartlyTallied, NewReports;
  }

  lemma ScanReturns(g: Graph, path: seq<string>, stack: seq<string>, visiting: set<string>, visited: set<string>,
                    visited': set<string>, issues: seq<seq<string>>, issues': seq<seq<string>>, v: string)
    requires v in g && v !in visiting && v in visited' && path == stack + [v]
    requires Scanned(g, path, visiting + {v}, visited, visited' - {v}, issues, issues', v, |g[v]|)
    ensures Returned(stack, visiting, visited, visited', issues, issues', v)
  {
    hide PartlyTallied, NewReports;
    assert visiting + {v} - {v} == visiting;
  }

  lemma JoinReports(root: string, known: set<string>, issues: seq<seq<string>>, issues': seq<seq<string>>,
                    issues'': seq<seq<string>>)
    requires issues <= issues' <= issues''
    requires NewReports(root, known, issues'[|issues|..]) && NewReports(root, known, issues''[|issues'|..])
    ensures NewReports(root, known, issues''[|issues|..])
  {
    assert issues''[|issues|..] == issues'[|issues|..] + issues''[|issues'|..];
  }

  lemma Apart(g: Graph, stack: seq<string>, visiting: set<string>, visited: set<string>,
              order: seq<string>, issues: seq<seq<string>>)
    requires Searching(g, stack, visiting, visited, order, issues)
    ensures visiting !! visited
  {
  }

  lemma NotStacked(g: Graph, stack: seq<string>, visiting: set<string>, visited: set<string>,
                   order: seq<string>, issues: seq<seq<string>>, v: string)
    requires Searching(g, stack, visiting, visited, order, issues) && v !in g
    ensures v !in visiting
  {
  }

  lemma StackOfVisiting(g: Graph, stack: seq<string>, visiting: set<string>, visited: set<string>,
                        order: seq<string>, issues: seq<seq<string>>)
    requires Searching(g, stack, visiting, visited, order, issues)
    ensures visiting != {} ==> stack != []
  {
  }

  /** What the search reports, `keys` being the iteration order of the dictionary and `order` that of completion. */
  ghost predicate CyclesFound(g: Graph, keys: seq<string>, order: seq<string>, issues: seq<seq<string>>) {
    && (forall path | path in issues :: CycleReport(g, path))
    && Distinct(order) && Elements(order) == g.Keys
    && Tallied(g, order, issues) && FromFirstKeys(g, keys, issues)
  }

  method DetectCycles(revisions: Revisions, keys: seq<string>) returns (issues: seq<seq<string>>, ghost order: seq<string>)
    requires Elements(keys) == revisions.Keys
    ensures CyclesFound(DownGraph(revisions), keys, order, issues)
    ensures issues == [] <==> !exists p :: ClosedWalk(DownGraph(revisions), p)
    ensures issues == [] ==> UpgradeOrder(DownGraph(revisions), order)
  {
    hide Walk, Distinct, ClosedWalk, CycleReport, UpgradeOrder, Tallied, Searching, FromFirstKeys, NewReports, Reach;
    ghost var g := DownGraph(revisions);
    var detector := new CycleDetector(revisions);
    NothingReported(g, keys);
    for i := 0 to |keys|
      invariant fresh(detector) && detector.revisions == revisions
      invariant detector.Valid() && detector.stack == [] && detector.visiting == {}
      invariant forall k | 0 <= k < i :: keys[k] in detector.visited
      invariant FromFirstKeys(g, keys, detector.issues)
    {
      assert keys[i] in Elements(keys);
      ghost var issues0, visited0 := detector.issues, detector.visited;
      VisitedIsClosed(g, visited0, detector.order, issues0);
      detector.Dfs(keys[i]);
      assert ([] + [keys[i]])[0] == keys[i] && {} + visited0 == visited0;
      RootReports(g, keys, i, visited0, issues0, detector.issues);
    }
    issues := detector.issues;
    order := detector.order;
    SearchFinished(g, [], {}, detector.visited, order, issues);
    forall r | r in revisions ensures r in order {
      assert r in Elements(keys);
      assert r in Elements(order);
    }
    assert Elements(order) == g.Keys;
    if issues == [] {
      RestIsOrdered(g, order, issues);
      NothingLeftOut(g);
      forall p | ClosedWalk(g, p) ensures false {
        UpgradeOrderIsAcyclic(g, order, p);
      }
    } else {
      ReportShowsClosedWalk(g, issues[0]);
    }
  }

  lemma NothingReported(g: Graph, keys: seq<string>)
    ensures FromFirstKeys(g, keys, [])
  {
  }

  lemma SearchFinished(g: Graph, stack: seq<string>, visiting: set<string>, visited: set<string>,
                       order: seq<string>, issues: seq<seq<string>>)
    requires Searching(g, stack, visiting, visited, order, issues)
    ensures (forall path | path in issues :: CycleReport(g, path)) && Tallied(g, order, issues)
    ensures Distinct(order) && Elements(order) == visited <= g.Keys
  {
  }

  lemma VisitedIsClosed(g: Graph, visited: set<string>, order: seq<string>, issues: seq<seq<string>>)
    requires Searching(g, [], {}, visited, order, issues)
    ensures Closed(g, visited)
  {
  }

  /** Between two top-level calls all that the earlier keys reach is finished. */
  lemma RootReports(g: Graph, keys: seq<string>, i: nat, visited: set<string>, issues: seq<seq<string>>,
                    issues': seq<seq<string>>)
    requires i < |keys| && Closed(g, visited) && forall k | 0 <= k < i :: keys[k] in visited
    requires issues <= issues' && NewReports(keys[i], visited, issues'[|issues|..])
    requires FromFirstKeys(g, keys, issues)
    ensures FromFirstKeys(g, keys, issues')
  {
    hide Reach, Closed;
    assert issues' == issues + issues'[|issues|..];
    forall path | path in issues' ensures exists k :: 0 <= k < |keys| && FromKey(g, keys, k, path) {
      if path in issues'[|issues|..] {
        forall j | 0 <= j < i ensures !Reach(g, keys[j], path[|path| - 2]) {
          if Reach(g, keys[j], path[|path| - 2]) {
            ReachStaysIn(g, visited, keys[j], path[|path| - 2]);
          }
        }
        assert FromKey(g, keys, i, path);
      }
    }
  }

  // ----- what the reports leave

  function Unreported(issues: seq<seq<string>>, x: string, parents: seq<string>): seq<string> {
    if parents == [] then []
    else (if Closings(issues, x, parents[0]) == 0 then [parents[0]] else []) + Unreported(issues, x, parents[1..])
  }

  /** The graph without the edges at which a report was made. */
  function Rest(g: Graph, issues: seq<seq<string>>): Graph {
    map x | x in g :: Unreported(issues, x, g[x])
  }

  lemma {:induction false} UnreportedExactly(issues: seq<seq<string>>, x: string, parents: seq<string>, y: string)
    ensures y in Unreported(issues, x, parents) <==> y in parents && Closings(issues, x, y) == 0
  {
    hide Closings;
    if parents != [] {
      UnreportedExactly(issues, x, parents[1..], y);
      assert parents == [parents[0]] + parents[1..];
    }
  }

  lemma RestIsOrdered(g: Graph, order: seq<string>, issues: seq<seq<string>>)
    requires Tallied(g, order, issues) && Distinct(order)
    ensures UpgradeOrder(Rest(g, issues), order)
  {
    hide Closings, Unreported;
    forall i, j | 0 <= i < |order| && 0 <= j < |order| && Edge(Rest(g, issues), order[i], order[j]) ensures j < i {
      UnreportedExactly(issues, order[i], g[order[i]], order[j]);
      assert Listings(g, order[i], order[j]) > 0;
      assert order[j] in order[..i];
    }
  }

  lemma {:induction false} UnreportedAll(x: string, parents: seq<string>)
    ensures Unreported([], x, parents) == parents
  {
    if parents != [] {
      UnreportedAll(x, parents[1..]);
    }
  }

  lemma NothingLeftOut(g: Graph)
    ensures Rest(g, []) == g
  {
    hide Unreported;
    forall x | x in g ensures Rest(g, [])[x] == g[x] {
      UnreportedAll(x, g[x]);
    }
  }

  /** Without the edges at which reports were made there is no cycle: the reports miss none. */
  lemma RestIsAcyclic(g: Graph, keys: seq<string>, order: seq<string>, issues: seq<seq<string>>, p: seq<string>)
    requires CyclesFound(g, keys, order, issues)
    ensures !ClosedWalk(Rest(g, issues), p)
  {
    hide Tallied, ClosedWalk, FromFirstKeys, UpgradeOrder;
    RestIsOrdered(g, order, issues);
    UpgradeOrderIsAcyclic(Rest(g, issues), order, p);
  }

  /** Every cycle of down-revisions uses an edge at which a report was made. */
  lemma EveryCycleIsReported(g: Graph, keys: seq<string>, order: seq<string>, issues: seq<seq<string>>, p: seq<string>)
    requires CyclesFound(g, keys, order, issues) && ClosedWalk(g, p)
    ensures exists k, path :: 0 <= k < |p| - 1 && path in issues && Closes(path, p[k], p[k + 1])
  {
    hide CyclesFound, Unreported, Closings, Closes;
    RestIsAcyclic(g, keys, order, issues, p);
    if forall k | 0 <= k < |p| - 1 :: Closings(issues, p[k], p[k + 1]) == 0 {
      forall k | 0 <= k < |p| - 1 ensures Edge(Rest(g, issues), p[k], p[k + 1]) {
        assert Edge(g, p[k], p[k + 1]);
        UnreportedExactly(issues, p[k], g[p[k]], p[k + 1]);
      }
    } else {
      var k :| 0 <= k < |p| - 1 && Closings(issues, p[k], p[k + 1]) != 0;
      ClosingIsReport(issues, p[k], p[k + 1]);
    }
  }

  lemma {:induction false} WalkDescends(g: Graph, order: seq<string>, p: seq<string>, i: nat, j: nat)
    requires UpgradeOrder(g, order) && Elements(order) == g.Keys
    requires Walk(g, p) && |p| > 1
    requires i < |order| && j < |order| && order[i] == p[0] && order[j] == p[|p| - 1]
    ensures j < i
    decreases |p|
  {
    assert Edge(g, p[0], p[1]);
    if |p| > 2 {
      assert p[1] in Elements(order);
      var k :| 0 <= k < |order| && order[k] == p[1];
      WalkDescends(g, order, p[1..], k, j);
    }
  }

  lemma UpgradeOrderIsAcyclic(g: Graph, order: seq<string>, p: seq<string>)
    requires UpgradeOrder(g, order) && Elements(order) == g.Keys
    ensures !ClosedWalk(g, p)
  {
    if ClosedWalk(g, p) {
      assert p[0] in Elements(order);
      var i :| 0 <= i < |order| && order[i] == p[0];
      WalkDescends(g, order, p, i, i);
    }
  }

  lemma ReportShowsClosedWalk(g: Graph, path: seq<string>)
    requires CycleReport(g, path)
    ensures exists p :: ClosedWalk(g, p)
  {
    var i :| 0 <= i < |path| - 1 && path[i] == path[|path| - 1] && ElementaryCycle(g, path[i..|path| - 1]);
    CycleIsClosedWalk(g, path[i..|path| - 1]);
  }
}
