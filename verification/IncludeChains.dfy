// Chains of `include_router` calls, and the prefixes joined along them.
module IncludeChains {
  import opened Paths

  datatype Target = Target(mod: string, router: string)

  /** A parsed module: its file, whether it declares routes, and per router variable what it includes. */
  datatype Parsed = Parsed(file: string, hasRoutes: bool, includes: map<string, seq<(Target, string)>>)

  type Program = map<string, Parsed>

  datatype Triple = Triple(target: Target, prefix: string)

  function OrSlash(prefix: string): string { if prefix == "" then "/" else prefix }

  function Merge(prefix: string, child: string): string { JoinPaths(OrSlash(prefix), OrSlash(child)) }

  /** The include calls on a router, none when the module cannot be parsed. */
  function IncludesOf(p: Program, t: Target): seq<(Target, string)> {
    if t.mod in p && t.router in p[t.mod].includes then p[t.mod].includes[t.router] else []
  }

  // ----- chains

  /** The module of the target parses, and on the target's router it makes this include call. */
  predicate Calls(p: Program, t: Target, hop: (Target, string)) {
    t.mod in p && t.router in p[t.mod].includes && hop in p[t.mod].includes[t.router]
  }

  lemma CallsAreListed(p: Program, t: Target, hop: (Target, string))
    ensures Calls(p, t, hop) <==> hop in IncludesOf(p, t)
  {
  }

  /** A chain of include calls that begins at `start`. */
  ghost predicate Chain(p: Program, start: Target, hops: seq<(Target, string)>)
    decreases |hops|
  {
    hops != [] ==>
      Calls(p, start, hops[0]) && Chain(p, hops[0].0, hops[1..])
  }

  ghost function End(start: Target, hops: seq<(Target, string)>): Target {
    if hops == [] then start else hops[|hops| - 1].0
  }

  /** The prefixes along a chain, joined one after the other. */
  ghost function PrefixAlong(prefix: string, hops: seq<(Target, string)>): string
    decreases |hops|
  {
    if hops == [] then prefix else PrefixAlong(Merge(prefix, hops[0].1), hops[1..])
  }

  ghost predicate ReachedFrom(p: Program, root: Triple, t: Triple) {
    exists hops :: Chain(p, root.target, hops) && End(root.target, hops) == t.target &&
                   PrefixAlong(root.prefix, hops) == t.prefix
  }

  ghost predicate ReachedFromAny(p: Program, roots: seq<Triple>, t: Triple) {
    exists i :: 0 <= i < |roots| && ReachedFrom(p, roots[i], t)
  }

  /** Where the calls in `app/main.py` start: each target under its normalised prefix. */
  function Roots(includes: seq<(Target, string)>): seq<Triple> {
    seq(|includes|, i requires 0 <= i < |includes| => Triple(includes[i].0, NormalizePath(OrSlash(includes[i].1))))
  }

  // ----- one step

  function Child(p: Program, s: Triple, k: nat): Triple
    requires k < |IncludesOf(p, s.target)|
  {
    var (target, prefix) := IncludesOf(p, s.target)[k];
    Triple(target, Merge(s.prefix, prefix))
  }

  ghost predicate ClosedUnderStep(p: Program, s: set<Triple>) {
    forall t, k | t in s && 0 <= k < |IncludesOf(p, t.target)| :: Child(p, t, k) in s
  }

  lemma ReachedSelf(p: Program, t: Triple)
    ensures ReachedFrom(p, t, t)
  {
    var hops: seq<(Target, string)> := [];
    assert Chain(p, t.target, hops) && End(t.target, hops) == t.target && PrefixAlong(t.prefix, hops) == t.prefix;
  }

  lemma {:induction false} ChainExtends(p: Program, start: Target, prefix: string, hops: seq<(Target, string)>,
                                        hop: (Target, string))
    requires Chain(p, start, hops) && Calls(p, End(start, hops), hop)
    ensures Chain(p, start, hops + [hop])
    ensures End(start, hops + [hop]) == hop.0
    ensures PrefixAlong(prefix, hops + [hop]) == Merge(PrefixAlong(prefix, hops), hop.1)
    decreases |hops|
  {
    if hops == [] {
      assert [hop][1..] == [];
      assert hops + [hop] == [hop];
    } else {
      assert (hops + [hop])[1..] == hops[1..] + [hop];
      ChainExtends(p, hops[0].0, Merge(prefix, hops[0].1), hops[1..], hop);
    }
  }

  lemma ReachedStep(p: Program, root: Triple, s: Triple, k: nat)
    requires ReachedFrom(p, root, s) && k < |IncludesOf(p, s.target)|
    ensures ReachedFrom(p, root, Child(p, s, k))
  {
    var hops :| Chain(p, root.target, hops) && End(root.target, hops) == s.target &&
                PrefixAlong(root.prefix, hops) == s.prefix;
    var hop := IncludesOf(p, s.target)[k];
    CallsAreListed(p, s.target, hop);
    ChainExtends(p, root.target, root.prefix, hops, hop);
    assert ReachedFrom(p, root, Child(p, s, k));
  }

  lemma {:induction false} ChainStaysIn(p: Program, s: set<Triple>, start: Triple, hops: seq<(Target, string)>)
    requires ClosedUnderStep(p, s) && start in s && Chain(p, start.target, hops)
    ensures Triple(End(start.target, hops), PrefixAlong(start.prefix, hops)) in s
    decreases |hops|
  {
    hide Merge, Calls, IncludesOf;
    if hops != [] {
      CallsAreListed(p, start.target, hops[0]);
      var k :| 0 <= k < |IncludesOf(p, start.target)| && IncludesOf(p, start.target)[k] == hops[0];
      ChainStaysIn(p, s, Child(p, start, k), hops[1..]);
    }
  }

  // ----- grouping of prefixes

  /** The prefixes of a chain joined from the far end. */
  ghost function PrefixFrom(hops: seq<(Target, string)>): string
    requires hops != []
    decreases |hops|
  {
    if |hops| == 1 then OrSlash(hops[0].1) else JoinPaths(OrSlash(hops[0].1), PrefixFrom(hops[1..]))
  }

  /** Joining from the far end and prepending the root prefix gives the same mount prefix. */
  lemma {:induction false} PrefixesRegroup(prefix: string, hops: seq<(Target, string)>)
    requires hops != []
    ensures PrefixFrom(hops) != ""
    ensures PrefixAlong(prefix, hops) == JoinPaths(OrSlash(prefix), PrefixFrom(hops))
    decreases |hops|
  {
    var first := OrSlash(hops[0].1);
    if |hops| == 1 {
      assert PrefixAlong(Merge(prefix, hops[0].1), hops[1..]) == Merge(prefix, hops[0].1);
    } else {
      PrefixesRegroup(Merge(prefix, hops[0].1), hops[1..]);
      JoinAssociatesExactly(OrSlash(prefix), first, PrefixFrom(hops[1..]));
      JoinNotEmpty(OrSlash(prefix), first);
      JoinNotEmpty(first, PrefixFrom(hops[1..]));
    }
  }

  lemma JoinNotEmpty(a: string, b: string)
    ensures JoinPaths(a, b) != ""
  {
    JoinIsCollapsed(a, b);
    CollapseKeepsFirst("/" + b);
    CollapseKeepsFirst("/" + a);
    CollapseKeepsFirst("/" + a + "/" + b);
  }

  /** Every prefix the search records is canonical already. */
  lemma PrefixesAreCanonical(prefix: string, hops: seq<(Target, string)>)
    requires Canonical(prefix)
    ensures Canonical(PrefixAlong(prefix, hops))
    decreases |hops|
  {
    if hops != [] {
      var a, b := OrSlash(prefix), OrSlash(hops[0].1);
      CanonicalExactly(StripRight(a) + "/" + StripLeft(b));
      PrefixesAreCanonical(Merge(prefix, hops[0].1), hops[1..]);
    }
  }

  // ----- prefixes as text

  /** All the prefixes written one after the other, with slashes between them. */
  ghost function Slashed(prefix: string, hops: seq<(Target, string)>): string
    decreases |hops|
  {
    if hops == [] then prefix else Slashed(prefix + ("/" + hops[0].1), hops[1..])
  }

  /** Merging a prefix is writing it after a slash, and normalising. */
  lemma MergeIsSlash(prefix: string, child: string)
    ensures Merge(NormalizePath(prefix), child) == NormalizePath(prefix + ("/" + child))
  {
    hide Collapse;
    NormalIsCollapsed(prefix);
    NormalIsCollapsed(prefix + ("/" + child));
    var a := NormalizePath(prefix);
    NotEmptyNormal(prefix);
    JoinIsCollapsed(a, OrSlash(child));
    CollapseInside(prefix, OrSlash(child));
    if child == "" {
      DoubleSlash("/" + prefix, "");
      assert "/" + (prefix + ("/" + "/")) == ("/" + prefix) + "//" + "";
      assert "/" + (prefix + ("/" + "")) == ("/" + prefix) + "/" + "";
    }
  }

  lemma NotEmptyNormal(prefix: string)
    ensures NormalizePath(prefix) != ""
  {
    CollapseKeepsFirst("/" + prefix);
    CollapseKeepsFirst(prefix);
  }

  /** The prefix along a chain is all its prefixes written with slashes between them, and normalised. */
  lemma {:induction false} AlongIsSlashed(prefix: string, hops: seq<(Target, string)>)
    ensures PrefixAlong(NormalizePath(prefix), hops) == NormalizePath(Slashed(prefix, hops))
    decreases |hops|
  {
    hide NormalizePath, Merge;
    if hops != [] {
      MergeIsSlash(prefix, hops[0].1);
      AlongIsSlashed(prefix + ("/" + hops[0].1), hops[1..]);
    }
  }
}
