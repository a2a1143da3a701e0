// `build_mount_prefixes`: the closure of the `include_router` calls from `app/main.py`, guarded by a
// set of (module, router, prefix) triples, and the prefixes under which each router file is mounted.
module MountPrefixes {
  import opened Ordering
  import opened Paths
  import opened IncludeChains
  import opened IncludeTermination

  // ----- what the result should be

  /** The triple mounts the file under its own prefix. */
  predicate Mounts(p: Program, t: Triple, file: string) {
    t.target.mod in p && p[t.target.mod].hasRoutes && p[t.target.mod].file == file && file != ""
  }

  /**
   * Include calls lead from the `i`th call in `app/main.py` to a module with routes in the file, and the prefix is
   * that of the call and those along the way, with slashes between them and runs of slashes made one.
   */
  ghost predicate MountedBy(p: Program, includes: seq<(Target, string)>, i: int, hops: seq<(Target, string)>,
                            file: string, prefix: string)
  {
    && 0 <= i < |includes| && Chain(p, includes[i].0, hops)
    && var mod := if hops == [] then includes[i].0.mod else hops[|hops| - 1].0.mod;
       mod in p && p[mod].hasRoutes && p[mod].file == file && file != "" &&
       prefix == Collapse("/" + Slashed(includes[i].1, hops))
  }

  ghost predicate Mounted(p: Program, includes: seq<(Target, string)>, file: string, prefix: string) {
    exists i, hops :: MountedBy(p, includes, i, hops, file, prefix)
  }

  /** Some reached triple mounts the file under the prefix. */
  ghost predicate MountedByChain(p: Program, roots: seq<Triple>, file: string, prefix: string) {
    exists t :: ReachedFromAny(p, roots, t) && Mounts(p, t, file) && prefix == NormalizePath(OrSlash(t.prefix))
  }

  // ----- the search

  /** Every triple added since `before` has all its children. */
  ghost predicate Expanded(p: Program, before: set<Triple>, guard: set<Triple>) {
    forall t, k | t in guard && t !in before && 0 <= k < |IncludesOf(p, t.target)| :: Child(p, t, k) in guard
  }

  ghost predicate MountedIn(p: Program, guard: set<Triple>, file: string, prefix: string) {
    exists t :: t in guard && Mounts(p, t, file) && prefix == NormalizePath(OrSlash(t.prefix))
  }

  /** `mounts` lists for each file the prefixes of the triples in the guard that mount it. */
  ghost predicate MountsOf(p: Program, guard: set<Triple>, mounts: map<string, set<string>>) {
    && (forall f, q :: (f in mounts && q in mounts[f]) <==> MountedIn(p, guard, f, q))
    && (forall f | f in mounts :: mounts[f] != {})
  }

  lemma MountedInGrows(p: Program, guard: set<Triple>, t: Triple, f: string, q: string)
    ensures MountedIn(p, guard + {t}, f, q) <==>
            MountedIn(p, guard, f, q) || (Mounts(p, t, f) && q == NormalizePath(OrSlash(t.prefix)))
  {
    hide NormalizePath, OrSlash, Mounts;
    if Mounts(p, t, f) && q == NormalizePath(OrSlash(t.prefix)) {
      assert t in guard + {t};
    }
    if MountedIn(p, guard, f, q) {
      var s :| s in guard && Mounts(p, s, f) && q == NormalizePath(OrSlash(s.prefix));
      assert s in guard + {t};
    }
  }

  lemma GuardGrows(p: Program, guard: set<Triple>, mounts: map<string, set<string>>, t: Triple)
    requires MountsOf(p, guard, mounts)
    ensures var f := if t.target.mod in p then p[t.target.mod].file else "";
            MountsOf(p, guard + {t},
                     if Mounts(p, t, f) then
                       mounts[f := (if f in mounts then mounts[f] else {}) + {NormalizePath(OrSlash(t.prefix))}]
                     else mounts)
  {
    hide NormalizePath, MountedIn;
    forall f, q
      ensures MountedIn(p, guard + {t}, f, q) <==>
              MountedIn(p, guard, f, q) || (Mounts(p, t, f) && q == NormalizePath(OrSlash(t.prefix)))
    {
      MountedInGrows(p, guard, t, f, q);
    }
  }

  class MountSearch {
    const program: Program
    var recursionGuard: set<Triple>
    var mounts: map<string, set<string>>

    constructor (p: Program)
      ensures program == p && recursionGuard == {} && mounts == map[]
    {
      program := p;
      recursionGuard, mounts := {}, map[];
    }

    /** `bound` is any finite set that the include calls do not leave. An ended recursion leaves one, its guard. */
    method RecurseModule(target: Target, prefix: string, ghost bound: set<Triple>, ghost root: Triple)
      requires ClosedUnderStep(program, bound) && recursionGuard <= bound && Triple(target, prefix) in bound
      requires MountsOf(program, recursionGuard, mounts)
      requires ReachedFrom(program, root, Triple(target, prefix))
      modifies this
      decreases bound - recursionGuard
      ensures recursionGuard <= bound && MountsOf(program, recursionGuard, mounts)
      ensures old(recursionGuard) + {Triple(target, prefix)} <= recursionGuard
      ensures Expanded(program, old(recursionGuard), recursionGuard)
      ensures forall t | t in recursionGuard && t !in old(recursionGuard) :: ReachedFrom(program, root, t)
    {
      hide MountsOf, ReachedFrom, NormalizePath, JoinPaths;
      var guardKey := Triple(target, prefix);
      if guardKey in recursionGuard {
        return;
      }
      GuardGrows(program, recursionGuard, mounts, guardKey);
      recursionGuard := recursionGuard + {guardKey};
      if target.mod !in program {
        return;
      }
      var module_ := program[target.mod];
      var includeCalls := IncludesOf(program, target);
      if module_.hasRoutes && module_.file != "" {
        var known := if module_.file in mounts then mounts[module_.file] else {};
        mounts := mounts[module_.file := known + {NormalizePath(OrSlash(prefix))}];
      }
      for i := 0 to |includeCalls|
        invariant recursionGuard <= bound && MountsOf(program, recursionGuard, mounts)
        invariant old(recursionGuard) + {guardKey} <= recursionGuard
        invariant Expanded(program, old(recursionGuard) + {guardKey}, recursionGuard)
        invariant forall k | 0 <= k < i :: Child(program, guardKey, k) in recursionGuard
        invariant forall t | t in recursionGuard && t !in old(recursionGuard) :: ReachedFrom(program, root, t)
      {
        var (childTarget, childPrefix) := includeCalls[i];
        var merged := Merge(prefix, childPrefix);
        assert Triple(childTarget, merged) == Child(program, guardKey, i);
        ReachedStep(program, root, guardKey, i);
        ghost var before := recursionGuard;
        RecurseModule(childTarget, merged, bound, root);
        ExpandedTwice(program, old(recursionGuard) + {guardKey}, before, recursionGuard);
      }
    }
  }

  lemma ExpandedTwice(p: Program, g0: set<Triple>, g1: set<Triple>, g2: set<Triple>)
    requires g0 <= g1 <= g2 && Expanded(p, g0, g1) && Expanded(p, g1, g2)
    ensures Expanded(p, g0, g2)
  {
    forall t, k | t in g2 && t !in g0 && 0 <= k < |IncludesOf(p, t.target)| ensures Child(p, t, k) in g2 {
      if t in g1 {
        assert Child(p, t, k) in g1;
      }
    }
  }

  /** `includes` are the `app.include_router` calls in order, with the target and the prefix each resolves to. */
  method BuildMountPrefixes(p: Program, includes: seq<(Target, string)>) returns (prefixes: map<string, seq<string>>)
    requires NoGrowth(p, Roots(includes))
    ensures forall f, q :: (f in prefixes && q in prefixes[f]) <==> Mounted(p, includes, f, q)
    ensures forall f | f in prefixes :: SortedBy(StringLe, prefixes[f]) && Distinct(prefixes[f]) && prefixes[f] != []
  {
    hide NoGrowth, MountsOf, ReachedFrom, NormalizePath, SortedBy, Distinct, StringLe;
    var search := new MountSearch(p);
    ghost var roots := Roots(includes);
    ghost var bound := NoGrowthIsBounded(p, roots);
    NothingMounted(p);
    for i := 0 to |includes|
      invariant fresh(search) && search.program == p
      invariant search.recursionGuard <= bound && MountsOf(p, search.recursionGuard, search.mounts)
      invariant ClosedUnderStep(p, search.recursionGuard)
      invariant forall k | 0 <= k < i :: roots[k] in search.recursionGuard
      invariant forall t | t in search.recursionGuard :: ReachedFromAny(p, roots, t)
    {
      var prefix := NormalizePath(OrSlash(includes[i].1));
      assert roots[i] == Triple(includes[i].0, prefix);
      ReachedSelf(p, roots[i]);
      search.RecurseModule(includes[i].0, prefix, bound, roots[i]);
    }
    GuardIsClosure(p, roots, search.recursionGuard);
    prefixes := map[];
    var mounts := search.mounts;
    ghost var guard := search.recursionGuard;
    var files := mounts.Keys;
    while files != {}
      invariant files <= mounts.Keys && prefixes.Keys == mounts.Keys - files
      invariant forall f | f in prefixes :: Elements(prefixes[f]) == mounts[f]
      invariant forall f | f in prefixes :: SortedBy(StringLe, prefixes[f]) && Distinct(prefixes[f])
      decreases files
    {
      var file :| file in files;
      var sorted := SortedElements(mounts[file]);
      prefixes := prefixes[file := sorted];
      files := files - {file};
    }
    MountsAreClosure(p, roots, guard, mounts, prefixes);
    forall f, q ensures MountedByChain(p, roots, f, q) <==> Mounted(p, includes, f, q) {
      ChainsMount(p, includes, f, q);
    }
  }

  lemma RootPrefix(includes: seq<(Target, string)>, i: nat, hops: seq<(Target, string)>)
    requires i < |includes|
    ensures Roots(includes)[i].target == includes[i].0
    ensures var q := Collapse("/" + Slashed(includes[i].1, hops));
            PrefixAlong(Roots(includes)[i].prefix, hops) == q && NormalizePath(OrSlash(q)) == q
  {
    hide NormalizePath, Collapse;
    var prefix := includes[i].1;
    assert NormalizePath(OrSlash(prefix)) == NormalizePath(prefix) by { NoPrefix(); }
    AlongIsSlashed(prefix, hops);
    NormalIsCollapsed(Slashed(prefix, hops));
    NotEmptyNormal(Slashed(prefix, hops));
    NormalizeIdempotent(Slashed(prefix, hops));
  }

  lemma NoPrefix()
    ensures NormalizePath("") == NormalizePath("/")
  {
  }

  /** The triples that mount a file are the chains that lead to it. */
  lemma ChainsMount(p: Program, includes: seq<(Target, string)>, file: string, prefix: string)
    ensures MountedByChain(p, Roots(includes), file, prefix) <==> Mounted(p, includes, file, prefix)
  {
    hide NormalizePath, Collapse, Slashed, PrefixAlong, Chain;
    var roots := Roots(includes);
    if t :| ReachedFromAny(p, roots, t) && Mounts(p, t, file) && prefix == NormalizePath(OrSlash(t.prefix)) {
      var i :| 0 <= i < |roots| && ReachedFrom(p, roots[i], t);
      var hops :| Chain(p, roots[i].target, hops) && End(roots[i].target, hops) == t.target &&
                  PrefixAlong(roots[i].prefix, hops) == t.prefix;
      RootPrefix(includes, i, hops);
      assert MountedBy(p, includes, i, hops, file, prefix);
    }
    if i, hops :| MountedBy(p, includes, i, hops, file, prefix) {
      RootPrefix(includes, i, hops);
      var t := Triple(End(roots[i].target, hops), prefix);
      assert ReachedFrom(p, roots[i], t);
      assert ReachedFromAny(p, roots, t) && Mounts(p, t, file);
    }
  }

  lemma NothingMounted(p: Program)
    ensures MountsOf(p, {}, map[])
  {
  }

  /** The guard ends as exactly the triples that some chain reaches. */
  lemma GuardIsClosure(p: Program, roots: seq<Triple>, guard: set<Triple>)
    requires ClosedUnderStep(p, guard)
    requires forall k | 0 <= k < |roots| :: roots[k] in guard
    requires forall t | t in guard :: ReachedFromAny(p, roots, t)
    ensures forall t :: t in guard <==> ReachedFromAny(p, roots, t)
  {
    hide ClosedUnderStep, Chain, End, PrefixAlong;
    forall t | ReachedFromAny(p, roots, t) ensures t in guard {
      var i :| 0 <= i < |roots| && ReachedFrom(p, roots[i], t);
      var hops :| Chain(p, roots[i].target, hops) && End(roots[i].target, hops) == t.target &&
                  PrefixAlong(roots[i].prefix, hops) == t.prefix;
      ChainStaysIn(p, guard, roots[i], hops);
    }
  }

  lemma MountsAreClosure(p: Program, roots: seq<Triple>, guard: set<Triple>, mounts: map<string, set<string>>,
                         prefixes: map<string, seq<string>>)
    requires MountsOf(p, guard, mounts) && forall t :: t in guard <==> ReachedFromAny(p, roots, t)
    requires prefixes.Keys == mounts.Keys && forall f | f in prefixes :: Elements(prefixes[f]) == mounts[f]
    ensures forall f, q :: (f in prefixes && q in prefixes[f]) <==> MountedByChain(p, roots, f, q)
    ensures forall f | f in prefixes :: prefixes[f] != []
  {
    hide ReachedFromAny, NormalizePath, Mounts;
    forall f, q ensures (f in prefixes && q in prefixes[f]) <==> (f in mounts && q in mounts[f]) {
      if f in prefixes {
        assert q in Elements(prefixes[f]) <==> q in prefixes[f];
      }
    }
    forall f, q ensures MountedIn(p, guard, f, q) <==> MountedByChain(p, roots, f, q) {
      if MountedByChain(p, roots, f, q) {
        var t :| ReachedFromAny(p, roots, t) && Mounts(p, t, f) && q == NormalizePath(OrSlash(t.prefix));
        assert t in guard;
      }
    }
    forall f | f in prefixes ensures prefixes[f] != [] {
      var q :| q in mounts[f];
      assert q in Elements(prefixes[f]);
    }
  }
}
