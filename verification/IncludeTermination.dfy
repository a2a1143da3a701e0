// When `recurse_module` ends: its guard stops only repeated triples, so it ends exactly when finitely many
// triples are reached, and that depends on what the include calls around each cycle add to the prefix.
module IncludeTermination {
  import opened Ordering
  import opened Paths
  import opened IncludeChains

  type Hop = (Target, string)

  /** The prefix adds something to a path that already ends in a slash. */
  predicate HasName(prefix: string) { exists c :: c in prefix && c != '/' }

  /** Include calls lead from the target back to it, and one of them has a prefix that is more than slashes. */
  ghost predicate GrowingCycle(p: Program, t: Target) {
    exists hops :: Chain(p, t, hops) && End(t, hops) == t && Grows(hops)
  }

  ghost predicate Grows(hops: seq<Hop>) { exists i :: 0 <= i < |hops| && HasName(hops[i].1) }

  ghost predicate TargetReached(p: Program, roots: seq<Triple>, t: Target) {
    exists i, hops :: 0 <= i < |roots| && LeadsTo(p, roots[i].target, hops, t)
  }

  ghost predicate LeadsTo(p: Program, start: Target, hops: seq<Hop>, t: Target) {
    Chain(p, start, hops) && End(start, hops) == t
  }

  /** A finite set of triples that holds the roots and that no include call leaves. */
  ghost predicate IsBound(p: Program, roots: seq<Triple>, bound: set<Triple>) {
    ClosedUnderStep(p, bound) && forall t | t in roots :: t in bound
  }

  ghost predicate Bounded(p: Program, roots: seq<Triple>) { exists bound :: IsBound(p, roots, bound) }

  /** No reached target lies on a cycle of include calls that makes the prefix grow. */
  ghost predicate NoGrowth(p: Program, roots: seq<Triple>) {
    forall t | TargetReached(p, roots, t) :: !GrowingCycle(p, t)
  }

  // ----- the weight of a prefix: how many of its characters are not slashes

  ghost function Weight(s: string): nat {
    if s == "" then 0 else (if s[0] == '/' then 0 else 1) + Weight(s[1..])
  }

  lemma {:induction false} WeightConcat(a: string, b: string)
    ensures Weight(a + b) == Weight(a) + Weight(b)
  {
    if a == "" {
      assert a + b == b;
    } else {
      assert (a + b)[1..] == a[1..] + b;
      WeightConcat(a[1..], b);
    }
  }

  lemma {:induction false} WeightCollapse(s: string)
    ensures Weight(Collapse(s)) == Weight(s)
    ensures forall c | c in Collapse(s) :: c in s
  {
    if |s| >= 2 {
      WeightCollapse(s[1..]);
      WeightConcat([s[0]], Collapse(s[1..]));
      assert [s[0]][1..] == "";
    }
  }

  lemma {:induction false} NamedIsHeavy(s: string)
    ensures HasName(s) <==> Weight(s) > 0
  {
    if s != "" {
      NamedIsHeavy(s[1..]);
      assert s == [s[0]] + s[1..];
      assert s[0] in s;
      forall c ensures c in s <==> c == s[0] || c in s[1..] {
      }
    }
  }

  /** A merge adds the weights, and brings in no character but a slash. */
  lemma MergeWeight(prefix: string, child: string)
    ensures Weight(Merge(prefix, child)) == Weight(prefix) + Weight(child)
    ensures forall c | c in Merge(prefix, child) :: c in prefix || c in child || c == '/'
  {
    var a, b := OrSlash(prefix), OrSlash(child);
    JoinIsCollapsed(a, b);
    WeightCollapse("/" + a + "/" + b);
    WeightConcat("/" + a + "/", b);
    WeightConcat("/" + a, "/");
    WeightConcat("/", a);
    assert Weight("/") == 0 && Weight("") == 0;
  }

  ghost function HopWeight(hops: seq<Hop>): nat {
    if hops == [] then 0 else Weight(hops[0].1) + HopWeight(hops[1..])
  }

  lemma {:induction false} WeightAlong(prefix: string, hops: seq<Hop>)
    ensures Weight(PrefixAlong(prefix, hops)) == Weight(prefix) + HopWeight(hops)
    decreases |hops|
  {
    if hops != [] {
      MergeWeight(prefix, hops[0].1);
      WeightAlong(Merge(prefix, hops[0].1), hops[1..]);
    }
  }

  lemma {:induction false} GrowingIsHeavy(hops: seq<Hop>)
    requires Grows(hops)
    ensures HopWeight(hops) > 0
  {
    hide HasName;
    var i :| 0 <= i < |hops| && HasName(hops[i].1);
    NamedIsHeavy(hops[0].1);
    if i > 0 {
      assert hops[1..][i - 1] == hops[i];
      GrowingIsHeavy(hops[1..]);
    }
  }

  // ----- a growing cycle leaves every finite set

  ghost function Heaviest(s: set<Triple>): (n: nat)
    ensures forall t | t in s :: Weight(t.prefix) <= n
  {
    if s == {} then 0
    else
      var t :| t in s;
      var n := Heaviest(s - {t});
      assert s == (s - {t}) + {t};
      if Weight(t.prefix) <= n then n else Weight(t.prefix)
  }

  /** Going round `n` times makes the prefix at least `n` heavier. */
  lemma {:induction false} Laps(p: Program, bound: set<Triple>, t: Target, prefix: string, hops: seq<Hop>, n: nat)
    returns (far: string)
    requires ClosedUnderStep(p, bound) && Triple(t, prefix) in bound
    requires LeadsTo(p, t, hops, t) && HopWeight(hops) > 0
    ensures Triple(t, far) in bound && Weight(far) >= n
  {
    if n == 0 {
      far := prefix;
    } else {
      var near := Laps(p, bound, t, prefix, hops, n - 1);
      far := PrefixAlong(near, hops);
      ChainStaysIn(p, bound, Triple(t, near), hops);
      WeightAlong(near, hops);
    }
  }

  lemma GrowthIsUnbounded(p: Program, roots: seq<Triple>, t: Target)
    requires TargetReached(p, roots, t) && GrowingCycle(p, t)
    ensures !Bounded(p, roots)
  {
    forall bound | IsBound(p, roots, bound) ensures false {
      var i, way :| 0 <= i < |roots| && LeadsTo(p, roots[i].target, way, t);
      ChainStaysIn(p, bound, roots[i], way);
      var hops :| Chain(p, t, hops) && End(t, hops) == t && Grows(hops);
      GrowingIsHeavy(hops);
      var far := Laps(p, bound, t, PrefixAlong(roots[i].prefix, way), hops, Heaviest(bound) + 1);
    }
  }

  // ----- without one, each growing include call is used at most once on a chain

  ghost function Edges(p: Program): set<(Target, Hop)> {
    set m, r, k | m in p && r in p[m].includes && 0 <= k < |p[m].includes[r]| :: (Target(m, r), p[m].includes[r][k])
  }

  lemma EdgeListed(p: Program, t: Target, hop: Hop)
    requires Calls(p, t, hop)
    ensures (t, hop) in Edges(p)
  {
    var k :| 0 <= k < |p[t.mod].includes[t.router]| && p[t.mod].includes[t.router][k] == hop;
    assert p[t.mod].includes[t.router][k] == hop;
    assert Target(t.mod, t.router) == t;
  }

  /** The include calls of a chain whose prefixes are more than slashes. */
  ghost function GrowingEdges(start: Target, hops: seq<Hop>): seq<(Target, Hop)>
    decreases |hops|
  {
    if hops == [] then []
    else (if HasName(hops[0].1) then [(start, hops[0])] else []) + GrowingEdges(hops[0].0, hops[1..])
  }

  lemma {:induction false} GrowingEdgesListed(p: Program, start: Target, hops: seq<Hop>)
    requires Chain(p, start, hops)
    ensures forall e | e in GrowingEdges(start, hops) :: e in Edges(p)
    decreases |hops|
  {
    hide HasName, Edges;
    if hops != [] {
      EdgeListed(p, start, hops[0]);
      GrowingEdgesListed(p, hops[0].0, hops[1..]);
    }
  }

  lemma {:induction false} GrowingEdgeStarts(p: Program, start: Target, hops: seq<Hop>, e: (Target, Hop)) returns (n: nat)
    requires Chain(p, start, hops) && e in GrowingEdges(start, hops)
    ensures n < |hops| && LeadsTo(p, start, hops[..n], e.0) && hops[n] == e.1
    decreases |hops|
  {
    hide HasName;
    if HasName(hops[0].1) && e == (start, hops[0]) {
      n := 0;
    } else {
      var m := GrowingEdgeStarts(p, hops[0].0, hops[1..], e);
      n := m + 1;
      var way := hops[..n];
      assert way[1..] == hops[1..][..m];
      assert End(start, way) == End(hops[0].0, way[1..]);
    }
  }

  ghost predicate NoGrowthOn(p: Program, start: Target, hops: seq<Hop>) {
    forall n | 0 <= n <= |hops| :: !GrowingCycle(p, End(start, hops[..n]))
  }

  lemma NoGrowthOnRest(p: Program, start: Target, hops: seq<Hop>)
    requires hops != [] && NoGrowthOn(p, start, hops)
    ensures NoGrowthOn(p, hops[0].0, hops[1..]) && !GrowingCycle(p, start)
  {
    hide GrowingCycle;
    assert hops[..0] == [];
    forall n | 0 <= n <= |hops[1..]| ensures !GrowingCycle(p, End(hops[0].0, hops[1..][..n])) {
      var way := hops[..n + 1];
      assert way[1..] == hops[1..][..n];
      assert End(start, way) == End(hops[0].0, hops[1..][..n]);
    }
  }

  lemma {:induction false} GrowingEdgesDiffer(p: Program, start: Target, hops: seq<Hop>)
    requires Chain(p, start, hops) && NoGrowthOn(p, start, hops)
    ensures Distinct(GrowingEdges(start, hops))
    decreases |hops|
  {
    hide HasName, GrowingCycle, NoGrowthOn;
    if hops != [] {
      NoGrowthOnRest(p, start, hops);
      var rest := GrowingEdges(hops[0].0, hops[1..]);
      GrowingEdgesDiffer(p, hops[0].0, hops[1..]);
      if HasName(hops[0].1) && (start, hops[0]) in rest {
        var n := GrowingEdgeStarts(p, hops[0].0, hops[1..], (start, hops[0]));
        BackToStart(p, start, hops, n);
      }
    }
  }

  lemma BackToStart(p: Program, start: Target, hops: seq<Hop>, n: nat)
    requires hops != [] && Calls(p, start, hops[0]) && HasName(hops[0].1)
    requires n < |hops| && LeadsTo(p, hops[0].0, hops[1..][..n], start)
    ensures GrowingCycle(p, start)
  {
    hide HasName;
    var way := [hops[0]] + hops[1..][..n];
    assert way[1..] == hops[1..][..n];
    assert Chain(p, start, way) && End(start, way) == start;
    assert HasName(way[0].1);
  }

  lemma {:induction false} FewAreLight(start: Target, hops: seq<Hop>, most: nat)
    requires forall i | 0 <= i < |hops| :: Weight(hops[i].1) <= most
    ensures HopWeight(hops) <= |GrowingEdges(start, hops)| * most
    decreases |hops|
  {
    hide HasName;
    if hops != [] {
      NamedIsHeavy(hops[0].1);
      FewAreLight(hops[0].0, hops[1..], most);
      var k := |GrowingEdges(hops[0].0, hops[1..])|;
      assert (k + 1) * most == k * most + most;
    }
  }

  // ----- so finitely many triples are reached

  ghost function Words(alphabet: set<char>, n: nat): set<string> {
    if n == 0 then {""}
    else
      var shorter := Words(alphabet, n - 1);
      shorter + set w, c | w in shorter && c in alphabet :: w + [c]
  }

  lemma {:induction false} WordListed(alphabet: set<char>, n: nat, s: string)
    requires |s| <= n && forall c | c in s :: c in alphabet
    ensures s in Words(alphabet, n)
  {
    if n > 0 {
      if |s| == n {
        var init := s[..n - 1];
        WordListed(alphabet, n - 1, init);
        assert s == init + [s[n - 1]];
      } else {
        WordListed(alphabet, n - 1, s);
      }
    }
  }

  /** A canonical path is at most twice as long as it is heavy, and one more. */
  lemma {:induction false} NoRunsIsShort(s: string)
    requires forall i | 0 <= i < |s| - 1 :: s[i] != '/' || s[i + 1] != '/'
    ensures |s| <= 2 * Weight(s) + 1
  {
    if |s| >= 2 {
      assert s[0] != '/' || s[0 + 1] != '/';
      var rest := s[2..];
      forall i | 0 <= i < |rest| - 1 ensures rest[i] != '/' || rest[i + 1] != '/' {
        assert s[i + 2] != '/' || s[(i + 2) + 1] != '/';
      }
      NoRunsIsShort(rest);
      assert s[1..][1..] == rest;
    }
  }

  ghost function HeaviestEdge(edges: set<(Target, Hop)>): (n: nat)
    ensures forall e | e in edges :: Weight(e.1.1) <= n
  {
    if edges == {} then 0
    else
      var e :| e in edges;
      var n := HeaviestEdge(edges - {e});
      assert edges == (edges - {e}) + {e};
      if Weight(e.1.1) <= n then n else Weight(e.1.1)
  }

  /** The characters and targets that can occur, and the greatest weight a chain can reach from a root. */
  ghost function Alphabet(p: Program, root: Triple): set<char> {
    {'/'} + (set c | c in root.prefix) + set e, c | e in Edges(p) && c in e.1.1 :: c
  }

  ghost function Targets(p: Program): set<Target> { set e | e in Edges(p) :: e.1.0 }

  ghost function Limit(p: Program, root: Triple): nat {
    2 * (Weight(root.prefix) + |Edges(p)| * HeaviestEdge(Edges(p))) + 1
  }

  ghost function Box(p: Program, root: Triple): set<Triple> {
    {root} + set t, w | t in Targets(p) && w in Words(Alphabet(p, root), Limit(p, root)) :: Triple(t, w)
  }

  ghost predicate IsHop(p: Program, hop: Hop) { exists s :: (s, hop) in Edges(p) }

  lemma {:induction false} HopsListed(p: Program, start: Target, hops: seq<Hop>)
    requires Chain(p, start, hops)
    ensures forall i | 0 <= i < |hops| :: IsHop(p, hops[i])
    decreases |hops|
  {
    hide Edges;
    if hops != [] {
      EdgeListed(p, start, hops[0]);
      HopsListed(p, hops[0].0, hops[1..]);
      forall i | 0 <= i < |hops| ensures IsHop(p, hops[i]) {
        if i > 0 {
          assert hops[1..][i - 1] == hops[i];
        }
      }
    }
  }

  lemma {:induction false} CharsAlong(prefix: string, hops: seq<Hop>, alphabet: set<char>)
    requires '/' in alphabet && forall c | c in prefix :: c in alphabet
    requires forall i, c | 0 <= i < |hops| && c in hops[i].1 :: c in alphabet
    ensures forall c | c in PrefixAlong(prefix, hops) :: c in alphabet
    decreases |hops|
  {
    hide Merge;
    if hops != [] {
      MergeWeight(prefix, hops[0].1);
      assert forall c | c in hops[0].1 :: c in alphabet;
      forall i, c | 0 <= i < |hops[1..]| && c in hops[1..][i].1 ensures c in alphabet {
        assert hops[1..][i] == hops[i + 1];
      }
      CharsAlong(Merge(prefix, hops[0].1), hops[1..], alphabet);
    }
  }

  lemma MergedIsCanonical(prefix: string, hops: seq<Hop>)
    requires hops != []
    ensures Canonical(PrefixAlong(prefix, hops))
  {
    var a, b := OrSlash(prefix), OrSlash(hops[0].1);
    CanonicalExactly(StripRight(a) + "/" + StripLeft(b));
    PrefixesAreCanonical(Merge(prefix, hops[0].1), hops[1..]);
  }

  lemma WeightIsLimited(p: Program, root: Triple, hops: seq<Hop>)
    requires Chain(p, root.target, hops) && NoGrowthOn(p, root.target, hops)
    ensures Weight(PrefixAlong(root.prefix, hops)) <= Weight(root.prefix) + |Edges(p)| * HeaviestEdge(Edges(p))
  {
    hide Edges, NoGrowthOn, HasName;
    var edges, most := GrowingEdges(root.target, hops), HeaviestEdge(Edges(p));
    HopsListed(p, root.target, hops);
    forall i | 0 <= i < |hops| ensures Weight(hops[i].1) <= most {
      assert IsHop(p, hops[i]);
      var s :| (s, hops[i]) in Edges(p);
    }
    FewAreLight(root.target, hops, most);
    GrowingEdgesDiffer(p, root.target, hops);
    GrowingEdgesListed(p, root.target, hops);
    DistinctCount(edges);
    SubsetSize(Elements(edges), Edges(p));
    Scale(|edges|, |Edges(p)|, most);
    WeightAlong(root.prefix, hops);
  }

  lemma Scale(n: nat, m: nat, x: nat)
    requires n <= m
    ensures n * x <= m * x
  {
  }

  lemma ReachedIsBoxed(p: Program, root: Triple, hops: seq<Hop>)
    requires Chain(p, root.target, hops) && NoGrowthOn(p, root.target, hops)
    ensures Triple(End(root.target, hops), PrefixAlong(root.prefix, hops)) in Box(p, root)
  {
    hide Edges, NoGrowthOn, Canonical, Words;
    if hops != [] {
      var prefix := PrefixAlong(root.prefix, hops);
      HopsListed(p, root.target, hops);
      forall i, c | 0 <= i < |hops| && c in hops[i].1 ensures c in Alphabet(p, root) {
        assert IsHop(p, hops[i]);
        var s :| (s, hops[i]) in Edges(p);
      }
      CharsAlong(root.prefix, hops, Alphabet(p, root));
      MergedIsCanonical(root.prefix, hops);
      CanonicalIsShort(prefix);
      WeightIsLimited(p, root, hops);
      WordListed(Alphabet(p, root), Limit(p, root), prefix);
      assert IsHop(p, hops[|hops| - 1]);
      var s :| (s, hops[|hops| - 1]) in Edges(p);
      assert hops[|hops| - 1].0 in Targets(p);
    }
  }

  lemma CanonicalIsShort(path: string)
    requires Canonical(path)
    ensures |path| <= 2 * Weight(path) + 1
  {
    NoRunsIsShort(path);
  }

  ghost function Boxes(p: Program, roots: seq<Triple>): set<Triple> {
    if roots == [] then {} else Box(p, roots[0]) + Boxes(p, roots[1..])
  }

  lemma {:induction false} BoxIncluded(p: Program, roots: seq<Triple>, i: nat)
    requires i < |roots|
    ensures Box(p, roots[i]) <= Boxes(p, roots)
  {
    hide Box;
    if i > 0 {
      BoxIncluded(p, roots[1..], i - 1);
    }
  }

  lemma NoGrowthOnChain(p: Program, roots: seq<Triple>, i: nat, hops: seq<Hop>)
    requires NoGrowth(p, roots) && i < |roots| && Chain(p, roots[i].target, hops)
    ensures NoGrowthOn(p, roots[i].target, hops)
  {
    hide GrowingCycle;
    forall n | 0 <= n <= |hops| ensures !GrowingCycle(p, End(roots[i].target, hops[..n])) {
      ChainPrefix(p, roots[i].target, hops, n);
      assert LeadsTo(p, roots[i].target, hops[..n], End(roots[i].target, hops[..n]));
      assert TargetReached(p, roots, End(roots[i].target, hops[..n]));
    }
  }

  lemma {:induction false} ChainPrefix(p: Program, start: Target, hops: seq<Hop>, n: nat)
    requires Chain(p, start, hops) && n <= |hops|
    ensures Chain(p, start, hops[..n])
    decreases |hops|
  {
    if n > 0 {
      assert hops[..n][1..] == hops[1..][..n - 1];
      ChainPrefix(p, hops[0].0, hops[1..], n - 1);
    }
  }

  lemma NoGrowthIsBounded(p: Program, roots: seq<Triple>) returns (bound: set<Triple>)
    requires NoGrowth(p, roots)
    ensures IsBound(p, roots, bound)
  {
    hide NoGrowth, Boxes, Box, ReachedFrom;
    bound := set t | t in Boxes(p, roots) && ReachedFromAny(p, roots, t);
    forall i, t | 0 <= i < |roots| && ReachedFrom(p, roots[i], t) ensures t in bound {
      ReachedIsListed(p, roots, i, t);
    }
    forall t | t in roots ensures t in bound {
      var i :| 0 <= i < |roots| && roots[i] == t;
      ReachedSelf(p, roots[i]);
    }
    forall t, k | t in bound && 0 <= k < |IncludesOf(p, t.target)| ensures Child(p, t, k) in bound {
      var i :| 0 <= i < |roots| && ReachedFrom(p, roots[i], t);
      ReachedStep(p, roots[i], t, k);
    }
  }

  lemma ReachedIsListed(p: Program, roots: seq<Triple>, i: nat, t: Triple)
    requires NoGrowth(p, roots) && i < |roots| && ReachedFrom(p, roots[i], t)
    ensures t in Boxes(p, roots)
  {
    hide NoGrowth, NoGrowthOn, Box, Boxes;
    var hops :| Chain(p, roots[i].target, hops) && End(roots[i].target, hops) == t.target &&
                PrefixAlong(roots[i].prefix, hops) == t.prefix;
    NoGrowthOnChain(p, roots, i, hops);
    ReachedIsBoxed(p, roots[i], hops);
    BoxIncluded(p, roots, i);
  }

  // ----- the exact condition

  /** Of the prefixes the parser delivers, none or a normalised one, only two add nothing. */
  lemma NamedPrefix(prefix: string)
    requires prefix == "" || Canonical(prefix)
    ensures HasName(prefix) <==> prefix != "" && prefix != "/"
  {
    if |prefix| >= 2 {
      assert prefix[0] != '/' || prefix[0 + 1] != '/';
      assert prefix[1] in prefix;
    }
  }

  /** The recursion from these roots stays within finitely many triples exactly when no reached cycle grows. */
  lemma BoundedExactly(p: Program, roots: seq<Triple>)
    ensures Bounded(p, roots) <==> NoGrowth(p, roots)
  {
    hide IsBound, TargetReached, GrowingCycle;
    if NoGrowth(p, roots) {
      var bound := NoGrowthIsBounded(p, roots);
    } else {
      var t :| TargetReached(p, roots, t) && GrowingCycle(p, t);
      GrowthIsUnbounded(p, roots, t);
    }
  }

  /** What an ended recursion has visited holds the roots and is closed: so the condition is necessary for it to end. */
  lemma EndedMeansNoGrowth(p: Program, roots: seq<Triple>, guard: set<Triple>)
    requires ClosedUnderStep(p, guard) && forall k | 0 <= k < |roots| :: roots[k] in guard
    ensures NoGrowth(p, roots)
  {
    hide NoGrowth;
    assert IsBound(p, roots, guard);
    BoundedExactly(p, roots);
  }

  /** A reached router that includes itself under a prefix with a name is enough to be unbounded. */
  lemma SelfIncludeNeverEnds(p: Program, roots: seq<Triple>, t: Target, prefix: string)
    requires TargetReached(p, roots, t) && Calls(p, t, (t, prefix)) && HasName(prefix)
    ensures !Bounded(p, roots)
  {
    hide Bounded, TargetReached, HasName;
    var hops: seq<Hop> := [(t, prefix)];
    assert hops[0] == (t, prefix) && hops[1..] == [];
    assert Chain(p, t, hops);
    assert End(t, hops) == t;
    assert Grows(hops);
    GrowthIsUnbounded(p, roots, t);
  }

  /** Includes go down some rank. */
  ghost predicate Ranked(p: Program, rank: Target -> nat) {
    forall t: Target, hop | Calls(p, t, hop) :: rank(hop.0) < rank(t)
  }

  lemma {:induction false} RankFalls(p: Program, rank: Target -> nat, start: Target, hops: seq<Hop>)
    requires Ranked(p, rank) && Chain(p, start, hops)
    ensures rank(End(start, hops)) + |hops| <= rank(start)
    decreases |hops|
  {
    if hops != [] {
      RankFalls(p, rank, hops[0].0, hops[1..]);
      assert End(start, hops) == End(hops[0].0, hops[1..]);
    }
  }

  /** Without circular includes there is a finite bound, whatever the roots. */
  lemma AcyclicIncludesAreBounded(p: Program, rank: Target -> nat, roots: seq<Triple>)
    returns (bound: set<Triple>)
    requires Ranked(p, rank)
    ensures ClosedUnderStep(p, bound) && forall t | t in roots :: t in bound
  {
    forall t ensures !GrowingCycle(p, t) {
      forall hops | Chain(p, t, hops) && End(t, hops) == t ensures hops == [] {
        RankFalls(p, rank, t, hops);
      }
    }
    bound := NoGrowthIsBounded(p, roots);
  }

  /** `app/main.py` mounts a router that includes itself under the given prefix. */
  function SelfInclude(prefix: string): (Program, seq<Triple>) {
    var t := Target("m", "router");
    (map["m" := Parsed("m.py", true, map["router" := [(t, prefix)]])], Roots([(t, "")]))
  }

  /** With "/a" the prefixes /, /a, /a/a, ... never end; with "/", or without a prefix, / is the only one. */
  lemma SelfIncludeWitness(prefix: string)
    ensures var (p, roots) := SelfInclude(prefix); Bounded(p, roots) <==> !HasName(prefix)
    ensures HasName("/a") && !HasName("/") && !HasName("")
  {
    hide HasName, Bounded, NoGrowth, TargetReached;
    var t := Target("m", "router");
    var (p, roots) := SelfInclude(prefix);
    NamedIsHeavy("/a");
    NamedIsHeavy("/");
    NamedIsHeavy("");
    assert "/a"[1..] == "a";
    assert TargetReached(p, roots, t) by { RootsAreReached(p, roots, 0); }
    if HasName(prefix) {
      assert Calls(p, t, (t, prefix));
      SelfIncludeNeverEnds(p, roots, t, prefix);
    } else {
      forall s ensures !GrowingCycle(p, s) {
        forall hops | Chain(p, s, hops) ensures !Grows(hops) {
          OnlyHop(p, s, hops, (t, prefix));
        }
      }
      assert NoGrowth(p, roots) by { NothingGrows(p, roots); }
      BoundedExactly(p, roots);
    }
  }

  lemma RootsAreReached(p: Program, roots: seq<Triple>, i: nat)
    requires i < |roots|
    ensures TargetReached(p, roots, roots[i].target)
  {
    var hops: seq<Hop> := [];
    assert LeadsTo(p, roots[i].target, hops, roots[i].target);
  }

  lemma NothingGrows(p: Program, roots: seq<Triple>)
    requires forall t :: !GrowingCycle(p, t)
    ensures NoGrowth(p, roots)
  {
  }

  lemma {:induction false} OnlyHop(p: Program, start: Target, hops: seq<Hop>, only: Hop)
    requires Chain(p, start, hops) && forall t, hop | Calls(p, t, hop) :: hop == only
    ensures forall i | 0 <= i < |hops| :: hops[i] == only
    decreases |hops|
  {
    if hops != [] {
      OnlyHop(p, hops[0].0, hops[1..], only);
      forall i | 0 <= i < |hops| ensures hops[i] == only {
        if i > 0 {
          assert hops[1..][i - 1] == hops[i];
        }
      }
    }
  }
}
