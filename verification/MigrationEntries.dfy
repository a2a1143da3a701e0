// What the verdict on a migration history means in terms of the directory itself: the entries, their names and the
// revisions and parents in their metadata.
module MigrationEntries {
  import opened Options
  import opened Ordering
  import opened Graphs
  import opened RevisionCycles
  import opened MigrationGuard

  // ----- reading loses and changes nothing

  /** `ys` are made, in order, from the items of `xs` that are kept; `idx` lists their positions. */
  ghost predicate Picks<A(!new), B>(xs: seq<A>, keep: A -> bool, made: (A, B) -> bool, ys: seq<B>, idx: seq<nat>) {
    && |ys| == |idx| && (forall j, k | 0 <= j < k < |idx| :: idx[j] < idx[k])
    && (forall j | 0 <= j < |idx| :: idx[j] < |xs| && keep(xs[idx[j]]) && made(xs[idx[j]], ys[j]))
    && (forall i | 0 <= i < |xs| && keep(xs[i]) :: i in idx)
  }

  lemma PicksNothing<A(!new), B>(keep: A -> bool, made: (A, B) -> bool)
    ensures Picks([], keep, made, [], [])
  {
  }

  lemma PicksOneMore<A(!new), B>(xs: seq<A>, keep: A -> bool, made: (A, B) -> bool, ys: seq<B>, idx: seq<nat>, y: B)
    requires xs != [] && Picks(xs[..|xs| - 1], keep, made, ys, idx)
    ensures var n := |xs| - 1;
            if !keep(xs[n]) then Picks(xs, keep, made, ys, idx)
            else made(xs[n], y) ==> Picks(xs, keep, made, ys + [y], idx + [n])
  {
    var n := |xs| - 1;
    forall i | 0 <= i < n && keep(xs[i]) ensures i in idx {
      assert xs[..n][i] == xs[i];
    }
  }

  predicate Readable(e: Entry) { e.metadata.Some? }
  predicate Unreadable(e: Entry) { e.metadata.None? }
  predicate IsFileOf(e: Entry, f: RevisionFile) { f.name == e.name && e.metadata == Some((f.revision, f.downRevisions)) }
  predicate EntryNamed(e: Entry, name: string) { e.name == name }
  predicate FileNamed(f: RevisionFile, name: string) { f.name == name }
  function HasKey(key: RevisionFile -> Option<string>, k: string): RevisionFile -> bool { f => key(f) == Some(k) }

  /** The files are the entries with metadata, in order, each with its own name, revision and parents. */
  lemma {:induction false} ParsedExactly(entries: seq<Entry>) returns (idx: seq<nat>)
    ensures Picks(entries, Readable, IsFileOf, Parsed(entries), idx)
  {
    hide Picks;
    idx := [];
    PicksNothing(Readable, IsFileOf);
    if entries != [] {
      var n := |entries| - 1;
      idx := ParsedExactly(entries[..n]);
      var files := Parsed(entries);
      if entries[n].metadata.Some? {
        PicksOneMore(entries, Readable, IsFileOf, Parsed(entries[..n]), idx, files[|files| - 1]);
        idx := idx + [n];
      } else {
        PicksOneMore(entries, Readable, IsFileOf, Parsed(entries[..n]), idx, RevisionFile("", "", []));
        assert Parsed(entries) == Parsed(entries[..n]);
      }
    }
  }

  /** ... and the names of the others are the failures. */
  lemma {:induction false} UnparsedExactly(entries: seq<Entry>) returns (idx: seq<nat>)
    ensures Picks(entries, Unreadable, EntryNamed, Unparsed(entries), idx)
  {
    hide Picks;
    idx := [];
    PicksNothing(Unreadable, EntryNamed);
    if entries != [] {
      var n := |entries| - 1;
      idx := UnparsedExactly(entries[..n]);
      PicksOneMore(entries, Unreadable, EntryNamed, Unparsed(entries[..n]), idx, entries[n].name);
      if entries[n].metadata.None? {
        idx := idx + [n];
      } else {
        assert Unparsed(entries) == Unparsed(entries[..n]);
      }
    }
  }

  /** The names listed for a key are those of the files that have it, in order. */
  lemma {:induction false} SharingExactly(key: RevisionFile -> Option<string>, files: seq<RevisionFile>, k: string)
    returns (idx: seq<nat>)
    ensures Picks(files, HasKey(key, k), FileNamed, Sharing(key, files, k), idx)
  {
    hide Picks;
    idx := [];
    PicksNothing(HasKey(key, k), FileNamed);
    if files != [] {
      var n := |files| - 1;
      idx := SharingExactly(key, files[..n], k);
      PicksOneMore(files, HasKey(key, k), FileNamed, Sharing(key, files[..n], k), idx, files[n].name);
      if key(files[n]) == Some(k) {
        idx := idx + [n];
      } else {
        assert Sharing(key, files, k) == Sharing(key, files[..n], k);
      }
    }
  }

  // ----- the missing parents, one by one

  ghost predicate MissingHere(revisions: Revisions, revs: seq<string>, k: nat, i: nat) {
    k < |revs| && revs[k] in revisions && i < |revisions[revs[k]].downRevisions| &&
    revisions[revs[k]].downRevisions[i] !in revisions
  }

  /** The issue is about the place: the position of a revision, and that of a parent in its list. */
  ghost predicate IssueFrom(revisions: Revisions, revs: seq<string>, place: (nat, nat), issue: Issue) {
    MissingHere(revisions, revs, place.0, place.1) &&
    var node := revisions[revs[place.0]];
    issue == MissingParent(revs[place.0], node.name, node.downRevisions[place.1])
  }

  ghost predicate PlacesAscend(at: seq<(nat, nat)>) {
    forall j, m | 0 <= j < m < |at| :: at[j].0 < at[m].0 || (at[j].0 == at[m].0 && at[j].1 < at[m].1)
  }

  /** One issue for each place where an unknown parent is named, in order. */
  ghost predicate MissingFrom(revisions: Revisions, revs: seq<string>, issues: seq<Issue>, at: seq<(nat, nat)>) {
    PlacesAscend(at) && IssuesFrom(revisions, revs, issues, at) && AllPlaced(revisions, revs, at)
  }

  ghost predicate IssuesFrom(revisions: Revisions, revs: seq<string>, issues: seq<Issue>, at: seq<(nat, nat)>) {
    |at| == |issues| && forall j | 0 <= j < |at| :: IssueFrom(revisions, revs, at[j], issues[j])
  }

  ghost predicate AllPlaced(revisions: Revisions, revs: seq<string>, at: seq<(nat, nat)>) {
    forall k: nat, i: nat | MissingHere(revisions, revs, k, i) :: (k, i) in at
  }

  function Unknown(revisions: Revisions): string -> bool { parent => parent !in revisions }

  ghost function IssueOf(revisions: Revisions, r: string): (string, Issue) -> bool
    requires r in revisions
  {
    (parent, issue) => issue == MissingParent(r, revisions[r].name, parent)
  }

  lemma {:induction false} MissingOfPicks(revisions: Revisions, r: string, parents: seq<string>) returns (at: seq<nat>)
    requires r in revisions
    ensures Picks(parents, Unknown(revisions), IssueOf(revisions, r), MissingOf(revisions, r, parents), at)
  {
    hide Picks;
    at := [];
    PicksNothing(Unknown(revisions), IssueOf(revisions, r));
    if parents != [] {
      var n := |parents| - 1;
      at := MissingOfPicks(revisions, r, parents[..n]);
      PicksOneMore(parents, Unknown(revisions), IssueOf(revisions, r), MissingOf(revisions, r, parents[..n]), at,
                   MissingParent(r, revisions[r].name, parents[n]));
      if parents[n] !in revisions {
        at := at + [n];
      } else {
        assert MissingOf(revisions, r, parents) == MissingOf(revisions, r, parents[..n]);
      }
    }
  }

  lemma {:induction false} MissingAlongFrom(revisions: Revisions, revs: seq<string>) returns (at: seq<(nat, nat)>)
    requires KnownRevisions(revisions, revs)
    ensures MissingFrom(revisions, revs, MissingAlong(revisions, revs), at)
  {
    hide MissingFrom, Picks;
    at := [];
    if revs == [] {
      NothingMissing(revisions);
    } else {
      var n := |revs| - 1;
      var before := MissingAlongFrom(revisions, revs[..n]);
      var here := MissingOfPicks(revisions, revs[n], revisions[revs[n]].downRevisions);
      at := before + Places(n, here);
      MissingFromOneMore(revisions, revs, before, here);
    }
  }

  lemma NothingMissing(revisions: Revisions)
    ensures MissingFrom(revisions, [], MissingAlong(revisions, []), [])
  {
  }

  function Places(n: nat, here: seq<nat>): seq<(nat, nat)> { seq(|here|, j requires 0 <= j < |here| => (n, here[j])) }

  lemma PlacesAscendOn(before: seq<(nat, nat)>, n: nat, here: seq<nat>)
    requires PlacesAscend(before) && forall j | 0 <= j < |before| :: before[j].0 < n
    requires forall j, m | 0 <= j < m < |here| :: here[j] < here[m]
    ensures PlacesAscend(before + Places(n, here))
  {
  }

  lemma IssueStays(revisions: Revisions, revs: seq<string>, place: (nat, nat), issue: Issue)
    requires revs != [] && IssueFrom(revisions, revs[..|revs| - 1], place, issue)
    ensures place.0 < |revs| - 1 && IssueFrom(revisions, revs, place, issue)
  {
  }

  lemma MissingFromOneMore(revisions: Revisions, revs: seq<string>, before: seq<(nat, nat)>, here: seq<nat>)
    requires revs != [] && KnownRevisions(revisions, revs)
    requires var n := |revs| - 1; MissingFrom(revisions, revs[..n], MissingAlong(revisions, revs[..n]), before)
    requires var r := revs[|revs| - 1]; var parents := revisions[r].downRevisions;
             Picks(parents, Unknown(revisions), IssueOf(revisions, r), MissingOf(revisions, r, parents), here)
    ensures MissingFrom(revisions, revs, MissingAlong(revisions, revs), before + Places(|revs| - 1, here))
  {
    hide MissingAlong, MissingOf, PlacesAscend, IssuesFrom, AllPlaced;
    var n := |revs| - 1;
    var r := revs[n];
    var parents := revisions[r].downRevisions;
    var earlier, found := MissingAlong(revisions, revs[..n]), MissingOf(revisions, r, parents);
    MissingAlongUnfolds(revisions, revs);
    IssuesFromEarlier(revisions, revs, earlier, before);
    IssuesFromLast(revisions, revs, found, here);
    IssuesFromBoth(revisions, revs, earlier, before, found, Places(n, here));
    PlacesAscendOn(before, n, here);
    AllPlacedOn(revisions, revs, n, before, here);
  }

  lemma IssuesFromEarlier(revisions: Revisions, revs: seq<string>, issues: seq<Issue>, at: seq<(nat, nat)>)
    requires revs != [] && IssuesFrom(revisions, revs[..|revs| - 1], issues, at)
    ensures IssuesFrom(revisions, revs, issues, at) && forall j | 0 <= j < |at| :: at[j].0 < |revs| - 1
  {
    hide IssueFrom;
    forall j | 0 <= j < |at| ensures at[j].0 < |revs| - 1 && IssueFrom(revisions, revs, at[j], issues[j]) {
      IssueStays(revisions, revs, at[j], issues[j]);
    }
  }

  lemma IssuesFromLast(revisions: Revisions, revs: seq<string>, issues: seq<Issue>, here: seq<nat>)
    requires revs != [] && revs[|revs| - 1] in revisions
    requires var r := revs[|revs| - 1];
             Picks(revisions[r].downRevisions, Unknown(revisions), IssueOf(revisions, r), issues, here)
    ensures IssuesFrom(revisions, revs, issues, Places(|revs| - 1, here))
  {
    hide IssueFrom;
    forall j | 0 <= j < |here| ensures IssueFrom(revisions, revs, (|revs| - 1, here[j]), issues[j]) {
      IssueHere(revisions, revs, here[j], issues[j]);
    }
  }

  lemma IssuesFromBoth(revisions: Revisions, revs: seq<string>, issues: seq<Issue>, at: seq<(nat, nat)>,
                       issues': seq<Issue>, at': seq<(nat, nat)>)
    requires IssuesFrom(revisions, revs, issues, at) && IssuesFrom(revisions, revs, issues', at')
    ensures IssuesFrom(revisions, revs, issues + issues', at + at')
  {
    hide IssueFrom;
  }

  lemma AllPlacedOn(revisions: Revisions, revs: seq<string>, n: nat, before: seq<(nat, nat)>, here: seq<nat>)
    requires |revs| == n + 1 && revs[n] in revisions && AllPlaced(revisions, revs[..n], before)
    requires forall i: nat | MissingHere(revisions, revs, n, i) :: i in here
    ensures AllPlaced(revisions, revs, before + Places(n, here))
  {
    forall k: nat, i: nat | MissingHere(revisions, revs, k, i) ensures (k, i) in before + Places(n, here) {
      if k < n {
        assert MissingHere(revisions, revs[..n], k, i);
      } else {
        var j :| 0 <= j < |here| && here[j] == i;
        assert Places(n, here)[j] == (n, i);
      }
    }
  }

  lemma IssueHere(revisions: Revisions, revs: seq<string>, i: nat, issue: Issue)
    requires revs != [] && revs[|revs| - 1] in revisions
    requires var node := revisions[revs[|revs| - 1]];
             i < |node.downRevisions| && node.downRevisions[i] !in revisions &&
             issue == MissingParent(revs[|revs| - 1], node.name, node.downRevisions[i])
    ensures IssueFrom(revisions, revs, (|revs| - 1, i), issue)
  {
  }

  lemma MissingAlongUnfolds(revisions: Revisions, revs: seq<string>)
    requires revs != [] && KnownRevisions(revisions, revs)
    ensures var n := |revs| - 1;
            MissingAlong(revisions, revs) ==
            MissingAlong(revisions, revs[..n]) + MissingOf(revisions, revs[n], revisions[revs[n]].downRevisions)
  {
  }

  /** The list of missing parents has one issue for each place where a known revision names an unknown parent. */
  lemma MissingInOrder(revisions: Revisions, issues: seq<Issue>) returns (revs: seq<string>, at: seq<(nat, nat)>)
    requires MissingReported(revisions, issues)
    ensures Ascending(revs) && Elements(revs) == revisions.Keys && MissingFrom(revisions, revs, issues, at)
  {
    hide Ascending, MissingFrom;
    revs :| MissingListed(revisions, revs, issues);
    at := MissingAlongFrom(revisions, revs);
  }

  // ----- feature slugs

  ghost predicate SplitsAt(name: string, head: string, rest: string) { name == head + ("_" + rest) && '_' !in head }

  /** The name is something without an underscore, an underscore, and the slug, with a final `.py` taken off. */
  ghost predicate HasSlug(name: string, slug: string) {
    exists head, rest :: SplitsAt(name, head, rest) && IsStem(rest, slug)
  }

  ghost predicate IsStem(rest: string, slug: string) {
    rest == slug + ".py" || (rest == slug && !EndsInPy(rest))
  }

  ghost predicate EndsInPy(s: string) { exists stem :: s == stem + ".py" }

  lemma SplitStep(name: string, head: string, rest: string)
    requires name != ""
    ensures SplitsAt(name, head, rest) <==>
            if name[0] == '_' then head == "" && rest == name[1..]
            else head != "" && head[0] == name[0] && SplitsAt(name[1..], head[1..], rest)
  {
    if head != "" {
      assert head == [head[0]] + head[1..];
      assert head + ("_" + rest) == [head[0]] + (head[1..] + ("_" + rest));
      assert name == [name[0]] + name[1..];
    } else {
      assert head + ("_" + rest) == "_" + rest;
    }
  }

  lemma NothingSplits(rest: string)
    ensures forall head :: !SplitsAt("", head, rest)
  {
    forall head ensures !SplitsAt("", head, rest) {
      assert |head + ("_" + rest)| > 0;
    }
  }

  lemma {:induction false} AfterUnderscoreExactly(name: string, rest: string)
    ensures AfterUnderscore(name) == Some(rest) <==> exists head :: SplitsAt(name, head, rest)
  {
    hide SplitsAt;
    if name == "" {
      NothingSplits(rest);
    } else {
      AfterUnderscoreExactly(name[1..], rest);
      forall head {
        SplitStep(name, head, rest);
      }
      if name[0] != '_' {
        if head :| SplitsAt(name[1..], head, rest) {
          SplitStep(name, [name[0]] + head, rest);
        }
      } else {
        SplitStep(name, "", rest);
      }
    }
  }

  lemma StemExactly(rest: string, slug: string)
    ensures WithoutSuffix(rest, ".py") == slug <==> IsStem(rest, slug)
  {
    if EndsInPy(rest) {
      var stem :| rest == stem + ".py";
      assert rest[|rest| - 3..] == ".py" && rest[..|rest| - 3] == stem;
      assert WithoutSuffix(rest, ".py") == stem;
      assert rest == slug + ".py" ==> slug == rest[..|rest| - 3];
    } else {
      assert WithoutSuffix(rest, ".py") == rest by { NotPy(rest); }
    }
  }

  lemma NotPy(s: string)
    ensures WithoutSuffix(s, ".py") == s || EndsInPy(s)
  {
    if 3 <= |s| && s[|s| - 3..] == ".py" {
      assert s == s[..|s| - 3] + ".py";
    }
  }

  lemma SlugExactly(file: RevisionFile, slug: string)
    ensures FeatureSlug(file) == Some(slug) <==> HasSlug(file.name, slug)
  {
    hide AfterUnderscore, WithoutSuffix, IsStem, SplitsAt;
    var name := file.name;
    forall rest ensures AfterUnderscore(name) == Some(rest) <==> exists head :: SplitsAt(name, head, rest) {
      AfterUnderscoreExactly(name, rest);
    }
    forall rest ensures WithoutSuffix(rest, ".py") == slug <==> IsStem(rest, slug) {
      StemExactly(rest, slug);
    }
    if HasSlug(name, slug) {
      var head, rest :| SplitsAt(name, head, rest) && IsStem(rest, slug);
      assert AfterUnderscore(name) == Some(rest);
    }
  }

  // ----- the verdict on the entries

  ghost predicate Declares(entries: seq<Entry>, i: int, r: string) {
    0 <= i < |entries| && entries[i].metadata.Some? && entries[i].metadata.value.0 == r
  }

  ghost predicate Declared(entries: seq<Entry>, r: string) { exists i :: Declares(entries, i, r) }

  /** Some entry declares `x` and names `y` as a parent. */
  ghost predicate Names(entries: seq<Entry>, x: string, y: string) {
    exists i :: Declares(entries, i, x) && y in entries[i].metadata.value.1
  }

  /** Each revision names the next as a parent. */
  ghost predicate Lineage(entries: seq<Entry>, p: seq<string>) {
    p != [] && forall i | 0 <= i < |p| - 1 :: Names(entries, p[i], p[i + 1])
  }

  ghost predicate Ancestor(entries: seq<Entry>, x: string, y: string) {
    exists p :: Lineage(entries, p) && p[0] == x && p[|p| - 1] == y
  }

  ghost predicate Loop(entries: seq<Entry>, p: seq<string>) {
    Lineage(entries, p) && |p| > 1 && p[0] == p[|p| - 1]
  }

  /** Declared, and not named as a parent; a revision without a name counts as not named. */
  ghost predicate Head(entries: seq<Entry>, r: string) {
    Declared(entries, r) && (r == "" || forall x :: !Names(entries, x, r))
  }

  ghost predicate SoundEntries(entries: seq<Entry>) {
    && (forall i | 0 <= i < |entries| :: entries[i].metadata.Some?)
    && (forall i, j, r | Declares(entries, i, r) && Declares(entries, j, r) :: i == j)
    && (forall i, j, slug | 0 <= i < |entries| && 0 <= j < |entries| &&
          HasSlug(entries[i].name, slug) && HasSlug(entries[j].name, slug) :: i == j)
    && (forall x, y | Names(entries, x, y) :: Declared(entries, y))
    && (forall p :: !Loop(entries, p))
  }

  ghost predicate SoundHistory(directory: Option<seq<Entry>>, singleHead: bool, dbAtHead: bool, db: DbProbe) {
    && directory.Some?
    && var entries := directory.value;
       && SoundEntries(entries)
       && (singleHead ==> exists h :: Head(entries, h) && forall r | Head(entries, r) :: r == h)
       && (dbAtHead ==> db.Stamped? && db.rows != {} && forall r :: r in db.rows <==> Head(entries, r))
  }

  // ----- from the files to the entries, when every entry is read

  lemma {:induction false} AllRead(entries: seq<Entry>)
    ensures Unparsed(entries) == [] <==> forall i | 0 <= i < |entries| :: entries[i].metadata.Some?
    ensures Unparsed(entries) == [] ==>
              && |Parsed(entries)| == |entries|
              && forall i | 0 <= i < |entries| ::
                   Parsed(entries)[i] ==
                   RevisionFile(entries[i].name, entries[i].metadata.value.0, entries[i].metadata.value.1)
  {
    if entries != [] {
      var n := |entries| - 1;
      AllRead(entries[..n]);
      assert entries[..n] + [entries[n]] == entries;
    }
  }

  ghost predicate Read(entries: seq<Entry>, files: seq<RevisionFile>) {
    && |files| == |entries|
    && forall i | 0 <= i < |entries| ::
         entries[i].metadata.Some? &&
         files[i] == RevisionFile(entries[i].name, entries[i].metadata.value.0, entries[i].metadata.value.1)
  }

  lemma RevisionsDiffer(entries: seq<Entry>, files: seq<RevisionFile>)
    requires Read(entries, files)
    ensures Unshared(RevisionOf, files) <==>
            forall i, j, r | Declares(entries, i, r) && Declares(entries, j, r) :: i == j
  {
    forall i, r | 0 <= i < |files| ensures RevisionOf(files[i]) == Some(r) <==> Declares(entries, i, r) {
    }
    if Unshared(RevisionOf, files) {
      forall i, j, r | Declares(entries, i, r) && Declares(entries, j, r) ensures i == j {
        assert RevisionOf(files[i]) == RevisionOf(files[j]);
      }
    } else {
      var i, j :| 0 <= i < j < |files| && RevisionOf(files[i]).Some? && RevisionOf(files[i]) == RevisionOf(files[j]);
      assert Declares(entries, i, files[i].revision) && Declares(entries, j, files[i].revision);
    }
  }

  lemma SlugsDiffer(entries: seq<Entry>, files: seq<RevisionFile>)
    requires Read(entries, files)
    ensures Unshared(FeatureSlug, files) <==>
            forall i, j, slug | 0 <= i < |entries| && 0 <= j < |entries| &&
              HasSlug(entries[i].name, slug) && HasSlug(entries[j].name, slug) :: i == j
  {
    hide FeatureSlug, HasSlug;
    forall i, slug | 0 <= i < |files| ensures FeatureSlug(files[i]) == Some(slug) <==> HasSlug(entries[i].name, slug) {
      SlugExactly(files[i], slug);
    }
    if Unshared(FeatureSlug, files) {
      forall i, j, slug | 0 <= i < |entries| && 0 <= j < |entries| &&
        HasSlug(entries[i].name, slug) && HasSlug(entries[j].name, slug) ensures i == j
      {
        assert FeatureSlug(files[i]) == Some(slug) == FeatureSlug(files[j]);
      }
    } else {
      var i, j :| 0 <= i < j < |files| && FeatureSlug(files[i]).Some? && FeatureSlug(files[i]) == FeatureSlug(files[j]);
      assert HasSlug(entries[i].name, FeatureSlug(files[i]).value) && HasSlug(entries[j].name, FeatureSlug(files[i]).value);
    }
  }

  /** The dictionary knows what the entries say. */
  ghost predicate Agree(entries: seq<Entry>, revisions: Revisions) {
    && (forall r :: r in revisions <==> Declared(entries, r))
    && (forall x, y :: Names(entries, x, y) <==> x in revisions && y in revisions[x].downRevisions)
  }

  lemma DictionaryAgrees(entries: seq<Entry>, files: seq<RevisionFile>)
    requires Read(entries, files) && Unshared(RevisionOf, files)
    ensures Agree(entries, Deduplicated(files))
  {
    hide Deduplicated;
    var revisions := Deduplicated(files);
    RevisionsDiffer(entries, files);
    forall r
      ensures r in revisions <==> Declared(entries, r)
      ensures forall y :: Names(entries, r, y) <==> r in revisions && y in revisions[r].downRevisions
    {
      RevisionAgrees(entries, files, r);
    }
  }

  lemma RevisionAgrees(entries: seq<Entry>, files: seq<RevisionFile>, r: string)
    requires Read(entries, files)
    requires forall i, j | Declares(entries, i, r) && Declares(entries, j, r) :: i == j
    ensures r in Deduplicated(files) <==> Declared(entries, r)
    ensures forall y :: Names(entries, r, y) <==> r in Deduplicated(files) && y in Deduplicated(files)[r].downRevisions
  {
    hide Deduplicated;
    var revisions := Deduplicated(files);
    DeduplicatedFirst(files, r);
    assert forall i | 0 <= i < |files| :: files[i].revision == r <==> Declares(entries, i, r);
    if r in revisions {
      var i :| 0 <= i < |files| && files[i].revision == r && revisions[r] == files[i];
      assert Declares(entries, i, r);
      assert revisions[r].downRevisions == entries[i].metadata.value.1;
    }
  }

  lemma ParentsAgree(entries: seq<Entry>, revisions: Revisions)
    requires Agree(entries, revisions)
    ensures AllParentsKnown(revisions) <==> forall x, y | Names(entries, x, y) :: Declared(entries, y)
  {
    hide Names, Declared;
  }

  lemma EdgesAgree(entries: seq<Entry>, revisions: Revisions, x: string, y: string)
    requires Agree(entries, revisions) && AllParentsKnown(revisions)
    ensures Edge(DownGraph(revisions), x, y) <==> Names(entries, x, y)
  {
    hide Names, Declared;
  }

  lemma WalksAgree(entries: seq<Entry>, revisions: Revisions, p: seq<string>)
    requires Agree(entries, revisions) && AllParentsKnown(revisions) && p != [] && p[0] in revisions
    ensures Walk(DownGraph(revisions), p) <==> Lineage(entries, p)
  {
    hide Agree, AllParentsKnown, Names, Edge;
    var g := DownGraph(revisions);
    forall i | 0 <= i < |p| - 1 ensures Edge(g, p[i], p[i + 1]) <==> Names(entries, p[i], p[i + 1]) {
      EdgesAgree(entries, revisions, p[i], p[i + 1]);
    }
    if Lineage(entries, p) {
      forall i | 0 <= i < |p| ensures p[i] in g {
        if i > 0 {
          assert Names(entries, p[i - 1], p[i - 1 + 1]);
          EdgeIsInside(g, p[i - 1], p[i]);
        }
      }
    }
  }

  lemma EdgeIsInside(g: Graph, x: string, y: string)
    requires Edge(g, x, y)
    ensures x in g && y in g
  {
  }

  lemma LoopsAgree(entries: seq<Entry>, revisions: Revisions)
    requires Agree(entries, revisions) && AllParentsKnown(revisions)
    ensures Acyclic(revisions) <==> forall p :: !Loop(entries, p)
  {
    hide AllParentsKnown, Walk, Lineage, Declared, Names;
    forall p ensures ClosedWalk(DownGraph(revisions), p) <==> Loop(entries, p) {
      if p != [] && p[0] in revisions {
        WalksAgree(entries, revisions, p);
      } else if p != [] {
        StartIsInside(entries, revisions, p);
      }
    }
  }

  lemma StartIsInside(entries: seq<Entry>, revisions: Revisions, p: seq<string>)
    requires Agree(entries, revisions) && p != []
    ensures Walk(DownGraph(revisions), p) ==> p[0] in revisions
    ensures Lineage(entries, p) && |p| > 1 ==> p[0] in revisions
  {
    hide Declared, Names, Edge;
    assert |p| > 1 && Lineage(entries, p) ==> Names(entries, p[0], p[0 + 1]);
  }

  lemma HeadsAgree(entries: seq<Entry>, revisions: Revisions, r: string)
    requires Agree(entries, revisions)
    ensures IsHead(revisions, r) <==> Head(entries, r)
  {
    hide Names, Declared;
  }

  lemma EntriesAgree(entries: seq<Entry>)
    ensures FilesAcceptable(entries) <==> SoundEntries(entries)
    ensures FilesAcceptable(entries) ==> Agree(entries, Deduplicated(Parsed(entries)))
  {
    hide Parsed, Unparsed, Deduplicated, Unshared, AllParentsKnown, Acyclic, Agree, Declares, HasSlug, Loop, Names,
         Declared, FeatureSlug;
    var files := Parsed(entries);
    AllRead(entries);
    if Unparsed(entries) == [] {
      assert Read(entries, files);
      RevisionsDiffer(entries, files);
      SlugsDiffer(entries, files);
      if Unshared(RevisionOf, files) {
        DictionaryAgrees(entries, files);
        ParentsAgree(entries, Deduplicated(files));
        if AllParentsKnown(Deduplicated(files)) {
          LoopsAgree(entries, Deduplicated(files));
        }
      }
    }
  }

  /** A report is valid exactly when the directory and the database are sound, told without the dictionary. */
  lemma AcceptableExactly(directory: Option<seq<Entry>>, singleHead: bool, dbAtHead: bool, db: DbProbe)
    ensures Acceptable(directory, singleHead, dbAtHead, db) <==> SoundHistory(directory, singleHead, dbAtHead, db)
  {
    hide FilesAcceptable, SoundEntries, Agree, IsHead, Head, Deduplicated, Parsed;
    if directory.Some? {
      EntriesAgree(directory.value);
      if FilesAcceptable(directory.value) {
        var revisions := Deduplicated(Parsed(directory.value));
        forall r ensures IsHead(revisions, r) <==> Head(directory.value, r) {
          HeadsAgree(directory.value, revisions, r);
        }
      }
    }
  }

  /** With both checks on: one head, of which every entry's revision is an ancestor, and it is all the database holds. */
  lemma SoundHistoryHasOneHead(entries: seq<Entry>, db: DbProbe, order: seq<string>) returns (head: string)
    requires Acceptable(Some(entries), true, true, db)
    requires var g := DownGraph(Deduplicated(Parsed(entries))); UpgradeOrder(g, order) && Elements(order) == g.Keys
    ensures Declared(entries, head) && db == Stamped({head})
    ensures forall i, r | Declares(entries, i, r) :: Ancestor(entries, head, r)
  {
    hide Parsed, Deduplicated, UpgradeOrder, Reach, Agree, Declares, FilesAcceptable, AllParentsKnown, Walk, Lineage;
    head := ValidHistory(entries, db, order);
    var revisions := Deduplicated(Parsed(entries));
    EntriesAgree(entries);
    ParentsOfAcceptable(entries);
    AgreeOnDeclared(entries, revisions, head);
    forall i, r | Declares(entries, i, r) ensures Ancestor(entries, head, r) {
      AgreeOnDeclared(entries, revisions, r);
      ReachIsLineage(entries, revisions, head, r);
    }
  }

  lemma ParentsOfAcceptable(entries: seq<Entry>)
    requires FilesAcceptable(entries)
    ensures AllParentsKnown(Deduplicated(Parsed(entries)))
  {
  }

  lemma AgreeOnDeclared(entries: seq<Entry>, revisions: Revisions, r: string)
    requires Agree(entries, revisions)
    ensures r in revisions <==> Declared(entries, r)
  {
  }

  lemma ReachIsLineage(entries: seq<Entry>, revisions: Revisions, x: string, y: string)
    requires Agree(entries, revisions) && AllParentsKnown(revisions) && x in revisions
    requires Reach(DownGraph(revisions), x, y)
    ensures Ancestor(entries, x, y)
  {
    hide Agree, AllParentsKnown, Walk, Lineage;
    var p :| WalkBetween(DownGraph(revisions), p, x, y);
    WalkNotEmpty(DownGraph(revisions), p);
    WalksAgree(entries, revisions, p);
  }

  lemma WalkNotEmpty(g: Graph, p: seq<string>)
    requires Walk(g, p)
    ensures p != []
  {
  }
}
