// `validate_migration_graph`: from parsed revision files to a verdict.
module MigrationGuard {
  import opened Options
  import opened Ordering
  import opened Graphs
  import opened RevisionCycles

  /** A file of the versions directory, with its metadata when it has any. */
  datatype Entry = Entry(name: string, metadata: Option<(string, seq<string>)>)

  /** The revisions stamped in the database, or a failed attempt to read them. */
  datatype DbProbe = Unreadable | Stamped(rows: set<string>)

  datatype Issue =
    | DirectoryMissing
    | Unparseable(files: seq<string>)
    | DuplicateRevision(revision: string, files: seq<string>)
    | MissingParent(revision: string, file: string, parent: string)
    | Cycle(path: seq<string>)
    | DuplicateSlug(slug: string, files: seq<string>)
    | WrongHeadCount(heads: seq<string>)
    | DbUnreadable
    | DbNotStamped
    | DbUnknown(revisions: seq<string>)
    | DbNotAtHead(db: seq<string>, heads: seq<string>)

  datatype Report = Report(valid: bool, issues: seq<Issue>, heads: seq<string>, revisionCount: nat,
                           dbRevisions: seq<string>)

  // ----- reading the directory

  function AfterUnderscore(name: string): Option<string> {
    if name == "" then None
    else if name[0] == '_' then Some(name[1..])
    else AfterUnderscore(name[1..])
  }

  function WithoutSuffix(s: string, suffix: string): string {
    if |suffix| <= |s| && s[|s| - |suffix|..] == suffix then s[..|s| - |suffix|] else s
  }

  /** What follows the first underscore of a file name, less a final `.py`. */
  function FeatureSlug(file: RevisionFile): Option<string> {
    match AfterUnderscore(file.name)
    case None => None
    case Some(rest) => Some(WithoutSuffix(rest, ".py"))
  }

  function RevisionOf(file: RevisionFile): Option<string> { Some(file.revision) }

  function Parsed(entries: seq<Entry>): seq<RevisionFile> {
    if entries == [] then []
    else
      var last := entries[|entries| - 1];
      Parsed(entries[..|entries| - 1]) +
      (if last.metadata.Some? then [RevisionFile(last.name, last.metadata.value.0, last.metadata.value.1)] else [])
  }

  function Unparsed(entries: seq<Entry>): seq<string> {
    if entries == [] then []
    else
      var last := entries[|entries| - 1];
      Unparsed(entries[..|entries| - 1]) + (if last.metadata.Some? then [] else [last.name])
  }

  /** The names of the files that `key` maps to `k`, in order. */
  ghost function Sharing(key: RevisionFile -> Option<string>, files: seq<RevisionFile>, k: string): seq<string> {
    if files == [] then []
    else
      var last := files[|files| - 1];
      Sharing(key, files[..|files| - 1], k) + (if key(last) == Some(k) then [last.name] else [])
  }

  /** No two files share a key. */
  ghost predicate Unshared(key: RevisionFile -> Option<string>, files: seq<RevisionFile>) {
    forall i, j | 0 <= i < j < |files| && key(files[i]).Some? :: key(files[i]) != key(files[j])
  }

  lemma {:induction false} SharingNonEmpty(key: RevisionFile -> Option<string>, files: seq<RevisionFile>, k: string)
    ensures Sharing(key, files, k) != [] <==> exists i :: 0 <= i < |files| && key(files[i]) == Some(k)
  {
    if files != [] {
      var n := |files| - 1;
      SharingNonEmpty(key, files[..n], k);
      if key(files[n]) != Some(k) {
        if i :| 0 <= i < |files| && key(files[i]) == Some(k) {
          assert files[..n][i] == files[i];
        }
      }
    }
  }

  lemma {:induction false} SharingTwice(key: RevisionFile -> Option<string>, files: seq<RevisionFile>, k: string)
    ensures |Sharing(key, files, k)| > 1 <==>
            exists i, j :: 0 <= i < j < |files| && key(files[i]) == Some(k) && key(files[j]) == Some(k)
  {
    if files != [] {
      var n := |files| - 1;
      var rest := files[..n];
      SharingTwice(key, rest, k);
      SharingNonEmpty(key, rest, k);
      if key(files[n]) == Some(k) && Sharing(key, rest, k) != [] {
        var i :| 0 <= i < |rest| && key(rest[i]) == Some(k);
        assert files[i] == rest[i];
      }
      if i, j :| 0 <= i < j < |files| && key(files[i]) == Some(k) && key(files[j]) == Some(k) {
        assert rest[i] == files[i];
        if j < n {
          assert rest[j] == files[j];
        }
      }
    }
  }

  /** `groups` lists the names per key, for the keys that occur. */
  ghost predicate GroupedBy(key: RevisionFile -> Option<string>, files: seq<RevisionFile>,
                            groups: map<string, seq<string>>)
  {
    forall k {:trigger k in groups} {:trigger Sharing(key, files, k)} ::
      if k in groups then groups[k] == Sharing(key, files, k) != [] else Sharing(key, files, k) == []
  }

  lemma GroupsUnshared(key: RevisionFile -> Option<string>, files: seq<RevisionFile>, groups: map<string, seq<string>>)
    requires GroupedBy(key, files, groups)
    ensures (forall k | k in groups :: |groups[k]| <= 1) <==> Unshared(key, files)
  {
    forall k ensures |Sharing(key, files, k)| > 1 <==>
                     exists i, j :: 0 <= i < j < |files| && key(files[i]) == Some(k) && key(files[j]) == Some(k)
    {
      SharingTwice(key, files, k);
    }
    if !Unshared(key, files) {
      var i, j :| 0 <= i < j < |files| && key(files[i]).Some? && key(files[i]) == key(files[j]);
      var k := key(files[i]).value;
      assert |Sharing(key, files, k)| > 1;
    }
  }

  method ReadDirectory(entries: seq<Entry>)
    returns (parsed: seq<RevisionFile>, failures: seq<string>, slugs: map<string, seq<string>>)
    ensures parsed == Parsed(entries) && failures == Unparsed(entries)
    ensures GroupedBy(FeatureSlug, parsed, slugs)
  {
    hide FeatureSlug;
    parsed, failures, slugs := [], [], map[];
    for i := 0 to |entries|
      invariant parsed == Parsed(entries[..i]) && failures == Unparsed(entries[..i])
      invariant GroupedBy(FeatureSlug, parsed, slugs)
    {
      var entry := entries[i];
      assert entries[..i + 1][..i] == entries[..i];
      match entry.metadata
      case None =>
        failures := failures + [entry.name];
      case Some((revision, downRevisions)) =>
        var file := RevisionFile(entry.name, revision, downRevisions);
        ghost var before := parsed;
        parsed := parsed + [file];
        assert parsed[..|parsed| - 1] == before;
        match FeatureSlug(file) {
          case None =>
          case Some(slug) =>
            slugs := slugs[slug := (if slug in slugs then slugs[slug] else []) + [entry.name]];
        }
    }
    assert entries[..|entries|] == entries;
  }

  // ----- the dictionary of revisions

  /** The first file that declares a revision owns it. */
  function Deduplicated(files: seq<RevisionFile>): Revisions {
    if files == [] then map[]
    else
      var before, last := Deduplicated(files[..|files| - 1]), files[|files| - 1];
      if last.revision in before then before else before[last.revision := last]
  }

  lemma {:induction false} DeduplicatedFirst(files: seq<RevisionFile>, r: string)
    ensures r in Deduplicated(files) <==> exists i :: 0 <= i < |files| && files[i].revision == r
    ensures r in Deduplicated(files) ==>
              exists i :: 0 <= i < |files| && files[i].revision == r && Deduplicated(files)[r] == files[i] &&
                          forall j | 0 <= j < i :: files[j].revision != r
  {
    if files != [] {
      var n := |files| - 1;
      var rest := files[..n];
      DeduplicatedFirst(rest, r);
      if r in Deduplicated(rest) {
        var i :| 0 <= i < |rest| && rest[i].revision == r && Deduplicated(rest)[r] == rest[i] &&
                 forall j | 0 <= j < i :: rest[j].revision != r;
        assert files[i] == rest[i];
        forall j | 0 <= j < i ensures files[j].revision != r {
          assert files[j] == rest[j];
        }
      } else {
        forall j | 0 <= j < n ensures files[j].revision != r {
          assert files[j] == rest[j];
        }
        if files[n].revision == r {
          assert Deduplicated(files)[r] == files[n];
        }
      }
    }
  }

  lemma {:induction false} UnsharedCount(files: seq<RevisionFile>)
    requires Unshared(RevisionOf, files)
    ensures |Deduplicated(files)| == |files|
  {
    if files != [] {
      var n := |files| - 1;
      UnsharedCount(files[..n]);
      DeduplicatedFirst(files[..n], files[n].revision);
      assert RevisionOf(files[n]).Some?;
    }
  }

  /** `duplicates` lists the names of all files per revision, for the revisions declared more than once. */
  ghost predicate DuplicatesOf(files: seq<RevisionFile>, duplicates: map<string, seq<string>>) {
    forall k {:trigger k in duplicates} {:trigger Sharing(RevisionOf, files, k)} ::
      if k in duplicates then duplicates[k] == Sharing(RevisionOf, files, k) && |duplicates[k]| > 1
      else |Sharing(RevisionOf, files, k)| <= 1
  }

  lemma {:induction false} SharingOwner(files: seq<RevisionFile>, k: string)
    ensures k in Deduplicated(files) <==> Sharing(RevisionOf, files, k) != []
    ensures k in Deduplicated(files) ==> Sharing(RevisionOf, files, k)[0] == Deduplicated(files)[k].name
  {
    if files != [] {
      SharingOwner(files[..|files| - 1], k);
    }
  }

  /** `r` is declared at `i` and not before. */
  ghost predicate FirstAt(files: seq<RevisionFile>, r: string, i: nat) {
    i < |files| && files[i].revision == r && forall j | 0 <= j < i :: files[j].revision != r
  }

  /** The order in which the dictionary is filled: the declared revisions by the first file that declares them. */
  ghost predicate InDeclarationOrder(files: seq<RevisionFile>, keys: seq<string>) {
    && (forall i | 0 <= i < |files| :: files[i].revision in keys)
    && exists at :: FirstPlaces(files, keys, at)
  }

  ghost predicate FirstPlaces(files: seq<RevisionFile>, keys: seq<string>, at: seq<nat>) {
    && |at| == |keys| && (forall k | 0 <= k < |keys| :: FirstAt(files, keys[k], at[k]))
    && forall k, m | 0 <= k < m < |at| :: at[k] < at[m]
  }

  lemma StaysFirst(files: seq<RevisionFile>, n: nat, r: string, i: nat)
    requires n < |files| && FirstAt(files[..n], r, i)
    ensures FirstAt(files[..n + 1], r, i)
  {
    var before, now := files[..n], files[..n + 1];
    forall j | 0 <= j < i ensures now[j].revision != r {
      assert before[j].revision != r;
    }
  }

  lemma NextDeclared(files: seq<RevisionFile>, n: nat, keys: seq<string>)
    requires n < |files| && InDeclarationOrder(files[..n], keys)
    ensures var r := files[n].revision; InDeclarationOrder(files[..n + 1], if r in keys then keys else keys + [r])
  {
    hide FirstAt;
    var before, now, r := files[..n], files[..n + 1], files[n].revision;
    var at :| FirstPlaces(before, keys, at);
    forall i | 0 <= i < n ensures files[i].revision in keys {
      assert files[i] == before[i];
    }
    forall k | 0 <= k < |keys| ensures FirstAt(now, keys[k], at[k]) && at[k] < n {
      FirstIsPlace(before, keys[k], at[k]);
      StaysFirst(files, n, keys[k], at[k]);
    }
    if r in keys {
      assert FirstPlaces(now, keys, at);
    } else {
      FirstHere(files, n, keys);
      assert FirstPlaces(now, keys + [r], at + [n]);
    }
  }

  lemma FirstIsPlace(files: seq<RevisionFile>, r: string, i: nat)
    requires FirstAt(files, r, i)
    ensures i < |files|
  {
  }

  lemma FirstHere(files: seq<RevisionFile>, n: nat, keys: seq<string>)
    requires n < |files| && files[n].revision !in keys
    requires forall i | 0 <= i < n :: files[i].revision in keys
    ensures FirstAt(files[..n + 1], files[n].revision, n)
  {
  }

  lemma NothingDeclared()
    ensures InDeclarationOrder([], []) && DuplicatesOf([], map[])
  {
    assert FirstPlaces([], [], []);
  }

  method Deduplicate(files: seq<RevisionFile>)
    returns (revisions: Revisions, keys: seq<string>, duplicates: map<string, seq<string>>)
    ensures revisions == Deduplicated(files) && Elements(keys) == revisions.Keys && InDeclarationOrder(files, keys)
    ensures DuplicatesOf(files, duplicates)
  {
    hide InDeclarationOrder, DuplicatesOf;
    revisions, keys, duplicates := map[], [], map[];
    NothingDeclared();
    for i := 0 to |files|
      invariant revisions == Deduplicated(files[..i]) && Elements(keys) == revisions.Keys
      invariant InDeclarationOrder(files[..i], keys)
      invariant DuplicatesOf(files[..i], duplicates)
    {
      var entry := files[i];
      NextDeclared(files, i, keys);
      NextDuplicate(files, i, duplicates);
      assert files[..i + 1][..i] == files[..i];
      assert entry.revision in keys <==> entry.revision in Elements(keys);
      if entry.revision in revisions {
        var existing := revisions[entry.revision];
        var names := if entry.revision in duplicates then duplicates[entry.revision] else [existing.name];
        duplicates := duplicates[entry.revision := names + [entry.name]];
        continue;
      }
      revisions := revisions[entry.revision := entry];
      keys := keys + [entry.revision];
    }
    assert files[..|files|] == files;
  }

  lemma NextDuplicate(files: seq<RevisionFile>, n: nat, duplicates: map<string, seq<string>>)
    requires n < |files| && DuplicatesOf(files[..n], duplicates)
    ensures var r, name, revisions := files[n].revision, files[n].name, Deduplicated(files[..n]);
            DuplicatesOf(files[..n + 1],
                         if r !in revisions then duplicates
                         else duplicates[r := (if r in duplicates then duplicates[r] else [revisions[r].name]) + [name]])
  {
    hide Deduplicated;
    assert files[..n + 1][..n] == files[..n];
    SharingOwner(files[..n], files[n].revision);
  }

  // ----- the checks

  ghost predicate DuplicateIssue(files: seq<RevisionFile>, r: string, issue: Issue) {
    && issue.DuplicateRevision? && issue.revision == r
    && Ascending(issue.files) && Elements(issue.files) == Elements(Sharing(RevisionOf, files, r))
  }

  /** `revs` are the revisions that several files declare, in order, and each has one issue with its file names. */
  ghost predicate DuplicatesListed(files: seq<RevisionFile>, revs: seq<string>, issues: seq<Issue>) {
    && Ascending(revs)
    && (forall r {:trigger r in revs} {:trigger Sharing(RevisionOf, files, r)} ::
          r in revs <==> |Sharing(RevisionOf, files, r)| > 1)
    && |issues| == |revs| && forall i | 0 <= i < |revs| :: DuplicateIssue(files, revs[i], issues[i])
  }

  ghost predicate DuplicatesReported(files: seq<RevisionFile>, issues: seq<Issue>) {
    exists revs :: DuplicatesListed(files, revs, issues)
  }

  /** That leaves one list of issues. */
  lemma DuplicatesDetermined(files: seq<RevisionFile>, issues: seq<Issue>, others: seq<Issue>)
    requires DuplicatesReported(files, issues) && DuplicatesReported(files, others)
    ensures issues == others
  {
    hide Ascending, Sharing;
    var revs :| DuplicatesListed(files, revs, issues);
    var same :| DuplicatesListed(files, same, others);
    assert forall r :: r in revs <==> |Sharing(RevisionOf, files, r)| > 1;
    AscendingUnique(revs, same);
    forall i | 0 <= i < |issues| ensures issues[i] == others[i] {
      assert DuplicateIssue(files, revs[i], issues[i]) && DuplicateIssue(files, revs[i], others[i]);
      assert forall x :: x in issues[i].files <==> x in Elements(issues[i].files);
      assert forall x :: x in others[i].files <==> x in Elements(others[i].files);
      AscendingUnique(issues[i].files, others[i].files);
    }
  }

  method DuplicateIssues(ghost files: seq<RevisionFile>, duplicates: map<string, seq<string>>)
    returns (issues: seq<Issue>)
    requires DuplicatesOf(files, duplicates)
    ensures DuplicatesReported(files, issues)
    ensures issues == [] <==> Unshared(RevisionOf, files)
  {
    hide SortedBy, Distinct, Unshared, Sharing, StringLe;
    NoDuplicates(files, duplicates);
    issues := [];
    var revs := SortedElements(duplicates.Keys);
    for i := 0 to |revs|
      invariant |issues| == i
      invariant forall k | 0 <= k < i :: DuplicateIssue(files, revs[k], issues[k])
    {
      assert revs[i] in Elements(revs);
      var uniqueFiles := SortedElements(Elements(duplicates[revs[i]]));
      issues := issues + [DuplicateRevision(revs[i], uniqueFiles)];
    }
    assert forall r :: r in revs <==> r in Elements(revs);
    assert DuplicatesListed(files, revs, issues);
    assert issues == [] <==> duplicates == map[] by {
      assert |revs| == 0 <==> duplicates.Keys == {};
    }
  }

  /** The parents of the list that are not known, each as often as it is listed. */
  ghost function MissingOf(revisions: Revisions, r: string, parents: seq<string>): seq<Issue>
    requires r in revisions
  {
    if parents == [] then []
    else
      var parent := parents[|parents| - 1];
      MissingOf(revisions, r, parents[..|parents| - 1]) +
      (if parent in revisions then [] else [MissingParent(r, revisions[r].name, parent)])
  }

  ghost function MissingAlong(revisions: Revisions, revs: seq<string>): seq<Issue>
    requires forall r | r in revs :: r in revisions
  {
    if revs == [] then []
    else
      var r := revs[|revs| - 1];
      MissingAlong(revisions, revs[..|revs| - 1]) + MissingOf(revisions, r, revisions[r].downRevisions)
  }

  /** The missing parents of all revisions in order, those of a revision in the order in which it names them. */
  ghost predicate MissingReported(revisions: Revisions, issues: seq<Issue>) {
    exists revs :: MissingListed(revisions, revs, issues)
  }

  ghost predicate MissingListed(revisions: Revisions, revs: seq<string>, issues: seq<Issue>) {
    Ascending(revs) && Elements(revs) == revisions.Keys && KnownRevisions(revisions, revs) &&
    issues == MissingAlong(revisions, revs)
  }

  ghost predicate KnownRevisions(revisions: Revisions, revs: seq<string>) { forall r | r in revs :: r in revisions }

  /** An issue occurs exactly for a parent that a known revision names and that is not known. */
  lemma {:induction false} MissingExactly(revisions: Revisions, issues: seq<Issue>, issue: Issue)
    requires MissingReported(revisions, issues)
    ensures issue in issues <==>
            && issue.MissingParent? && issue.revision in revisions && issue.file == revisions[issue.revision].name
            && issue.parent in revisions[issue.revision].downRevisions && issue.parent !in revisions
  {
    hide Ascending;
    var revs :| MissingListed(revisions, revs, issues);
    MissingAlongExactly(revisions, revs, issue);
    assert issue.MissingParent? ==> (issue.revision in revs <==> issue.revision in Elements(revs));
  }

  lemma {:induction false} MissingAlongExactly(revisions: Revisions, revs: seq<string>, issue: Issue)
    requires KnownRevisions(revisions, revs)
    ensures issue in MissingAlong(revisions, revs) <==>
            && issue.MissingParent? && issue.revision in revs && issue.file == revisions[issue.revision].name
            && issue.parent in revisions[issue.revision].downRevisions && issue.parent !in revisions
  {
    if revs != [] {
      var n := |revs| - 1;
      MissingAlongExactly(revisions, revs[..n], issue);
      MissingOfExactly(revisions, revs[n], revisions[revs[n]].downRevisions, issue);
      assert revs == revs[..n] + [revs[n]];
    }
  }

  lemma {:induction false} MissingOfExactly(revisions: Revisions, r: string, parents: seq<string>, issue: Issue)
    requires r in revisions
    ensures issue in MissingOf(revisions, r, parents) <==>
            && issue.MissingParent? && issue.revision == r && issue.file == revisions[r].name
            && issue.parent in parents && issue.parent !in revisions
  {
    if parents != [] {
      var n := |parents| - 1;
      MissingOfExactly(revisions, r, parents[..n], issue);
      assert parents == parents[..n] + [parents[n]];
    }
  }

  lemma MissingDetermined(revisions: Revisions, issues: seq<Issue>, others: seq<Issue>)
    requires MissingReported(revisions, issues) && MissingReported(revisions, others)
    ensures issues == others
  {
    hide Ascending;
    var revs :| MissingListed(revisions, revs, issues);
    var same :| MissingListed(revisions, same, others);
    forall r ensures r in revs <==> r in same {
      assert r in Elements(revs) <==> r in Elements(same);
    }
    AscendingUnique(revs, same);
  }

  method MissingParents(revisions: Revisions) returns (issues: seq<Issue>)
    ensures MissingReported(revisions, issues)
    ensures issues == [] <==> AllParentsKnown(revisions)
  {
    hide SortedBy, Distinct, AllParentsKnown;
    issues := [];
    var revs := SortedElements(revisions.Keys);
    assert forall r :: r in revs <==> r in Elements(revs);
    for i := 0 to |revs|
      invariant issues == MissingAlong(revisions, revs[..i])
    {
      assert revs[..i + 1][..i] == revs[..i];
      var found := MissingParentsOf(revisions, revs[i]);
      issues := issues + found;
    }
    assert revs[..|revs|] == revs;
    assert MissingListed(revisions, revs, issues);
    EmptyMissing(revisions, issues);
  }

  method MissingParentsOf(revisions: Revisions, rev: string) returns (issues: seq<Issue>)
    requires rev in revisions
    ensures issues == MissingOf(revisions, rev, revisions[rev].downRevisions)
  {
    var node := revisions[rev];
    issues := [];
    for j := 0 to |node.downRevisions|
      invariant issues == MissingOf(revisions, rev, node.downRevisions[..j])
    {
      var parent := node.downRevisions[j];
      assert node.downRevisions[..j + 1][..j] == node.downRevisions[..j];
      if parent !in revisions {
        issues := issues + [MissingParent(rev, node.name, parent)];
      }
    }
    assert node.downRevisions[..|node.downRevisions|] == node.downRevisions;
  }

  ghost predicate SlugIssue(files: seq<RevisionFile>, slug: string, issue: Issue) {
    && issue.DuplicateSlug? && issue.slug == slug
    && SortedBy(StringLe, issue.files) && multiset(issue.files) == multiset(Sharing(FeatureSlug, files, slug))
  }

  /** `shared` are the feature slugs that several files share, in order, and each has one issue with its file names. */
  ghost predicate SlugsListed(files: seq<RevisionFile>, shared: seq<string>, issues: seq<Issue>) {
    && Ascending(shared)
    && (forall k {:trigger k in shared} {:trigger Sharing(FeatureSlug, files, k)} ::
          k in shared <==> |Sharing(FeatureSlug, files, k)| > 1)
    && |issues| == |shared| && forall i | 0 <= i < |shared| :: SlugIssue(files, shared[i], issues[i])
  }

  ghost predicate SlugsReported(files: seq<RevisionFile>, issues: seq<Issue>) {
    exists shared :: SlugsListed(files, shared, issues)
  }

  lemma SlugsDetermined(files: seq<RevisionFile>, issues: seq<Issue>, others: seq<Issue>)
    requires SlugsReported(files, issues) && SlugsReported(files, others)
    ensures issues == others
  {
    hide Ascending, Sharing, SortedBy;
    var shared :| SlugsListed(files, shared, issues);
    var same :| SlugsListed(files, same, others);
    assert forall k :: k in shared <==> |Sharing(FeatureSlug, files, k)| > 1;
    AscendingUnique(shared, same);
    forall i | 0 <= i < |issues| ensures issues[i] == others[i] {
      assert SlugIssue(files, shared[i], issues[i]) && SlugIssue(files, shared[i], others[i]);
      SortedUnique(issues[i].files, others[i].files);
    }
  }

  method SlugIssues(ghost files: seq<RevisionFile>, slugs: map<string, seq<string>>) returns (issues: seq<Issue>)
    requires GroupedBy(FeatureSlug, files, slugs)
    ensures SlugsReported(files, issues)
    ensures issues == [] <==> Unshared(FeatureSlug, files)
  {
    hide SortedBy, Distinct, Unshared, FeatureSlug, StringLe, Sharing, SlugIssue, GroupedBy;
    issues := [];
    var keys := SortedElements(slugs.Keys);
    ghost var shared: seq<string> := [];
    NoneAscend();
    for i := 0 to |keys|
      invariant Ascending(shared)
      invariant forall k :: k in shared <==> k in keys[..i] && k in slugs && |slugs[k]| > 1
      invariant |issues| == |shared| && forall k | 0 <= k < |shared| :: SlugIssue(files, shared[k], issues[k])
    {
      assert keys[i] in Elements(keys);
      assert keys[..i + 1] == keys[..i] + [keys[i]];
      if |slugs[keys[i]]| > 1 {
        AscendingGrows(keys, i, shared);
        SlugIsReported(files, slugs, keys[i]);
        issues := issues + [DuplicateSlug(keys[i], SortedNames(slugs[keys[i]]))];
        shared := shared + [keys[i]];
      }
    }
    assert keys[..|keys|] == keys;
    assert forall k :: k in keys <==> k in Elements(keys);
    SharedSlugs(files, slugs, shared);
    assert SlugsListed(files, shared, issues);
    GroupsUnshared(FeatureSlug, files, slugs);
    assert issues != [] ==> shared[0] in shared;
  }

  lemma SlugIsReported(files: seq<RevisionFile>, slugs: map<string, seq<string>>, slug: string)
    requires GroupedBy(FeatureSlug, files, slugs) && slug in slugs
    ensures SlugIssue(files, slug, DuplicateSlug(slug, SortedNames(slugs[slug])))
  {
    hide SortedBy, FeatureSlug, StringLe, Sharing;
  }

  lemma SharedSlugs(files: seq<RevisionFile>, slugs: map<string, seq<string>>, shared: seq<string>)
    requires GroupedBy(FeatureSlug, files, slugs)
    requires forall k :: k in shared <==> k in slugs && |slugs[k]| > 1
    ensures forall k {:trigger k in shared} {:trigger Sharing(FeatureSlug, files, k)} ::
              k in shared <==> |Sharing(FeatureSlug, files, k)| > 1
  {
    hide FeatureSlug, Sharing;
  }

  lemma AscendingGrows(keys: seq<string>, i: nat, chosen: seq<string>)
    requires Ascending(keys) && i < |keys|
    requires Ascending(chosen) && forall k | k in chosen :: k in keys[..i]
    ensures Ascending(chosen + [keys[i]])
  {
    hide StringLe;
    forall m | 0 <= m < |chosen| ensures StringLe(chosen[m], keys[i]) && chosen[m] != keys[i] {
      assert chosen[m] in keys[..i];
      var j :| 0 <= j < i && keys[j] == chosen[m];
    }
  }

  lemma NoneAscend()
    ensures Ascending([])
  {
  }

  function SortedNames(names: seq<string>): (sorted: seq<string>)
    ensures multiset(sorted) == multiset(names) && SortedBy(StringLe, sorted)
  {
    StringOrder();
    Sorted(StringLe, names)
  }

  /** No revision of the dictionary names it as a parent; an empty name is never counted as named. */
  ghost predicate IsHead(revisions: Revisions, r: string) {
    r in revisions && (r == "" || forall c | c in revisions :: r !in revisions[c].downRevisions)
  }

  ghost predicate AreHeads(revisions: Revisions, heads: seq<string>) {
    Distinct(heads) && SortedBy(StringLe, heads) && forall r :: r in heads <==> IsHead(revisions, r)
  }

  method HeadRevisions(revisions: Revisions) returns (heads: seq<string>)
    ensures AreHeads(revisions, heads)
  {
    var referenced: set<string> := {};
    var nodes := revisions.Keys;
    while nodes != {}
      invariant nodes <= revisions.Keys
      invariant forall p :: p in referenced <==>
                  p != "" && exists c :: c in revisions && c !in nodes && p in revisions[c].downRevisions
      decreases nodes
    {
      var c :| c in nodes;
      var parents := revisions[c].downRevisions;
      ghost var before := referenced;
      for i := 0 to |parents|
        invariant forall p :: p in referenced <==> p in before || (p != "" && p in parents[..i])
      {
        assert parents[..i + 1] == parents[..i] + [parents[i]];
        if parents[i] != "" {
          referenced := referenced + {parents[i]};
        }
      }
      assert parents[..|parents|] == parents;
      nodes := nodes - {c};
    }
    heads := SortedElements(set r | r in revisions && r !in referenced);
    forall r ensures r in heads <==> IsHead(revisions, r) {
      assert r in heads <==> r in Elements(heads);
    }
  }

  // ----- the verdict

  ghost predicate AllParentsKnown(revisions: Revisions) {
    forall r, p | r in revisions && p in revisions[r].downRevisions :: p in revisions
  }

  ghost predicate Acyclic(revisions: Revisions) {
    !exists p :: ClosedWalk(DownGraph(revisions), p)
  }

  ghost predicate OneHead(revisions: Revisions) {
    exists h :: IsHead(revisions, h) && forall r | IsHead(revisions, r) :: r == h
  }

  ghost predicate AtHeads(revisions: Revisions, db: DbProbe) {
    db.Stamped? && db.rows != {} && forall r :: r in db.rows <==> IsHead(revisions, r)
  }

  /** Every file has metadata, revisions and slugs are distinct, parents exist and there is no cycle. */
  ghost predicate FilesAcceptable(entries: seq<Entry>) {
    var files := Parsed(entries);
    var revisions := Deduplicated(files);
    && Unparsed(entries) == []
    && Unshared(RevisionOf, files) && Unshared(FeatureSlug, files)
    && AllParentsKnown(revisions) && Acyclic(revisions)
  }

  /** What a valid report certifies. */
  ghost predicate Acceptable(directory: Option<seq<Entry>>, singleHead: bool, dbAtHead: bool, db: DbProbe) {
    && directory.Some?
    && FilesAcceptable(directory.value)
    && var revisions := Deduplicated(Parsed(directory.value));
       && (singleHead ==> OneHead(revisions))
       && (dbAtHead ==> AtHeads(revisions, db))
  }

  lemma NoDuplicates(files: seq<RevisionFile>, duplicates: map<string, seq<string>>)
    requires DuplicatesOf(files, duplicates)
    ensures duplicates == map[] <==> Unshared(RevisionOf, files)
  {
    forall k ensures |Sharing(RevisionOf, files, k)| > 1 <==>
                     exists i, j :: 0 <= i < j < |files| && RevisionOf(files[i]) == Some(k) == RevisionOf(files[j])
    {
      SharingTwice(RevisionOf, files, k);
    }
    if !Unshared(RevisionOf, files) {
      var i, j :| 0 <= i < j < |files| && RevisionOf(files[i]).Some? && RevisionOf(files[i]) == RevisionOf(files[j]);
      assert |Sharing(RevisionOf, files, files[i].revision)| > 1;
    } else {
      forall k ensures k !in duplicates {
        assert |Sharing(RevisionOf, files, k)| <= 1;
      }
    }
  }

  /** The last revision of an upgrade order is a head. */
  lemma LastIsHead(revisions: Revisions, order: seq<string>)
    requires UpgradeOrder(DownGraph(revisions), order) && Elements(order) == revisions.Keys && order != []
    ensures IsHead(revisions, order[|order| - 1])
  {
    var r := order[|order| - 1];
    assert r in Elements(order);
    forall c | c in revisions ensures r !in revisions[c].downRevisions {
      assert c in Elements(order);
      var i :| 0 <= i < |order| && order[i] == c;
      assert !Edge(DownGraph(revisions), order[i], order[|order| - 1]);
    }
  }

  lemma HeadCount(revisions: Revisions, heads: seq<string>)
    requires AreHeads(revisions, heads)
    ensures |heads| == 1 <==> OneHead(revisions)
  {
    hide IsHead, StringLe;
    if |heads| == 1 {
      assert heads[0] in heads;
    } else if |heads| > 1 {
      assert heads[0] in heads && heads[1] in heads;
    }
  }

  /** The complaints that apply to what the database holds, in order; `unknown` are its unknown revisions, sorted. */
  ghost predicate DbListed(revisions: Revisions, heads: seq<string>, dbRevisions: seq<string>, unknown: seq<string>,
                           issues: seq<Issue>)
  {
    && SortedBy(StringLe, unknown) && (Distinct(dbRevisions) ==> Distinct(unknown))
    && (forall r :: r in unknown <==> r in dbRevisions && r !in revisions)
    && issues == (if dbRevisions == [] then [DbNotStamped] else [])
                 + (if unknown == [] then [] else [DbUnknown(unknown)])
                 + (if dbRevisions != [] && heads != [] && Elements(dbRevisions) != Elements(heads)
                    then [DbNotAtHead(dbRevisions, heads)] else [])
  }

  ghost predicate DbReported(revisions: Revisions, heads: seq<string>, dbRevisions: seq<string>, issues: seq<Issue>) {
    exists unknown :: DbListed(revisions, heads, dbRevisions, unknown, issues)
  }

  lemma DbDetermined(revisions: Revisions, heads: seq<string>, dbRevisions: seq<string>, issues: seq<Issue>,
                     others: seq<Issue>)
    requires Distinct(dbRevisions)
    requires DbReported(revisions, heads, dbRevisions, issues) && DbReported(revisions, heads, dbRevisions, others)
    ensures issues == others
  {
    hide SortedBy, Distinct;
    var unknown :| DbListed(revisions, heads, dbRevisions, unknown, issues);
    var same :| DbListed(revisions, heads, dbRevisions, same, others);
    AscendingUnique(unknown, same);
  }

  method DbIssues(revisions: Revisions, heads: seq<string>, dbRevisions: seq<string>) returns (issues: seq<Issue>)
    ensures DbReported(revisions, heads, dbRevisions, issues)
    ensures issues == [] <==>
            && dbRevisions != []
            && (forall r | r in dbRevisions :: r in revisions)
            && (heads == [] || Elements(dbRevisions) == Elements(heads))
  {
    hide SortedBy, StringLe, SortedNames, Distinct;
    issues := [];
    ghost var sorted: seq<string> := [];
    NoneAscend();
    if dbRevisions == [] {
      issues := issues + [DbNotStamped];
    } else {
      var unknown := UnknownRevisions(revisions, dbRevisions);
      SameItems(SortedNames(unknown), unknown);
      sorted := SortedNames(unknown);
      if unknown != [] {
        assert unknown[0] in unknown;
        issues := issues + [DbUnknown(SortedNames(unknown))];
      }
      if heads != [] && Elements(dbRevisions) != Elements(heads) {
        issues := issues + [DbNotAtHead(dbRevisions, heads)];
      }
      if Distinct(unknown) {
        DistinctPermutation(unknown, SortedNames(unknown));
      }
    }
    assert DbListed(revisions, heads, dbRevisions, sorted, issues);
  }

  method UnknownRevisions(revisions: Revisions, dbRevisions: seq<string>) returns (unknown: seq<string>)
    ensures forall r :: r in unknown <==> r in dbRevisions && r !in revisions
    ensures Distinct(dbRevisions) ==> Distinct(unknown)
  {
    unknown := [];
    for i := 0 to |dbRevisions|
      invariant forall r :: r in unknown <==> r in dbRevisions[..i] && r !in revisions
      invariant Distinct(dbRevisions) ==> Distinct(unknown)
    {
      assert dbRevisions[..i + 1] == dbRevisions[..i] + [dbRevisions[i]];
      if dbRevisions[i] !in revisions {
        unknown := unknown + [dbRevisions[i]];
      }
    }
    assert dbRevisions[..|dbRevisions|] == dbRevisions;
  }

  /** The issues are the reports of the cycle search, which miss no cycle. */
  ghost predicate CyclesReported(revisions: Revisions, keys: seq<string>, order: seq<string>, issues: seq<Issue>) {
    exists paths :: AreCycles(issues, paths) && CyclesFound(DownGraph(revisions), keys, order, paths)
  }

  ghost predicate AreCycles(issues: seq<Issue>, paths: seq<seq<string>>) {
    |issues| == |paths| && forall i | 0 <= i < |issues| :: issues[i] == Cycle(paths[i])
  }

  /** Every cycle of down-revisions shares with some issue the edge that closes the cycle shown there. */
  lemma CycleIsAmongIssues(revisions: Revisions, keys: seq<string>, order: seq<string>, issues: seq<Issue>, p: seq<string>)
    requires CyclesReported(revisions, keys, order, issues) && ClosedWalk(DownGraph(revisions), p)
    ensures exists k, issue :: 0 <= k < |p| - 1 && issue in issues && issue.Cycle? &&
                               Closes(issue.path, p[k], p[k + 1])
  {
    hide CyclesFound, ClosedWalk, Closes;
    var paths :| AreCycles(issues, paths) && CyclesFound(DownGraph(revisions), keys, order, paths);
    EveryCycleIsReported(DownGraph(revisions), keys, order, paths, p);
    var k, path :| 0 <= k < |p| - 1 && path in paths && Closes(path, p[k], p[k + 1]);
    var i :| 0 <= i < |paths| && paths[i] == path;
    assert issues[i] in issues;
  }

  method CycleIssues(revisions: Revisions, keys: seq<string>) returns (issues: seq<Issue>, ghost order: seq<string>)
    requires Elements(keys) == revisions.Keys
    ensures CyclesReported(revisions, keys, order, issues)
    ensures issues == [] <==> Acyclic(revisions)
    ensures Elements(order) == revisions.Keys && (issues == [] ==> UpgradeOrder(DownGraph(revisions), order))
  {
    hide UpgradeOrder, ClosedWalk, CycleReport, Tallied, FromFirstKeys;
    var paths;
    paths, order := DetectCycles(revisions, keys);
    issues := seq(|paths|, i requires 0 <= i < |paths| => Cycle(paths[i]));
    assert AreCycles(issues, paths);
  }

  /** Empty `heads` cannot hide a database that is off the heads. */
  lemma DbVerdict(revisions: Revisions, heads: seq<string>, order: seq<string>, db: DbProbe, dbRevisions: seq<string>)
    requires UpgradeOrder(DownGraph(revisions), order) && Elements(order) == revisions.Keys
    requires AreHeads(revisions, heads)
    requires Elements(dbRevisions) == if db.Stamped? then db.rows else {}
    ensures AtHeads(revisions, db) <==>
            && db.Stamped? && dbRevisions != []
            && (forall r | r in dbRevisions :: r in revisions)
            && (heads == [] || Elements(dbRevisions) == Elements(heads))
  {
    hide UpgradeOrder, SortedBy, StringLe;
    assert forall r :: r in dbRevisions <==> r in Elements(dbRevisions);
    assert forall r :: r in heads <==> r in Elements(heads);
    assert dbRevisions != [] ==> dbRevisions[0] in dbRevisions;
    if dbRevisions != [] && dbRevisions[0] in revisions {
      assert dbRevisions[0] in Elements(order);
      LastIsHead(revisions, order);
      assert heads != [];
    }
  }

  ghost predicate DatabaseReported(revisions: Revisions, heads: seq<string>, db: DbProbe, dbRevisions: seq<string>,
                                   issues: seq<Issue>)
  {
    exists rest :: DbReported(revisions, heads, dbRevisions, rest) &&
                   issues == (if db.Unreadable? then [DbUnreadable] else []) + rest
  }

  method CheckDatabase(revisions: Revisions, heads: seq<string>, db: DbProbe, ghost order: seq<string>)
    returns (issues: seq<Issue>, dbRevisions: seq<string>)
    requires AreHeads(revisions, heads)
    ensures Elements(dbRevisions) == if db.Stamped? then db.rows else {}
    ensures DatabaseReported(revisions, heads, db, dbRevisions, issues)
    ensures UpgradeOrder(DownGraph(revisions), order) && Elements(order) == revisions.Keys ==>
              (issues == [] <==> AtHeads(revisions, db))
  {
    hide AtHeads, UpgradeOrder, AreHeads, SortedBy, StringLe, DbReported;
    dbRevisions := [];
    issues := [];
    match db {
      case Unreadable =>
        issues := issues + [DbUnreadable];
      case Stamped(rows) =>
        dbRevisions := SortedElements(rows);
    }
    var found := DbIssues(revisions, heads, dbRevisions);
    issues := issues + found;
    if UpgradeOrder(DownGraph(revisions), order) && Elements(order) == revisions.Keys {
      DbVerdict(revisions, heads, order, db, dbRevisions);
    }
  }

  /** What the checks on the files found, in the order of the checks. */
  ghost predicate FileIssues(entries: seq<Entry>, issues: seq<Issue>) {
    exists keys, order, duplicates, missing, cycles, slugs ::
      FileFindings(Parsed(entries), keys, order, duplicates, missing, cycles, slugs) &&
      issues == (if Unparsed(entries) == [] then [] else [Unparseable(Unparsed(entries))]) +
                duplicates + missing + cycles + slugs
  }

  ghost predicate FileFindings(files: seq<RevisionFile>, keys: seq<string>, order: seq<string>,
                               duplicates: seq<Issue>, missing: seq<Issue>, cycles: seq<Issue>, slugs: seq<Issue>)
  {
    var revisions := Deduplicated(files);
    && DuplicatesReported(files, duplicates) && MissingReported(revisions, missing)
    && InDeclarationOrder(files, keys) && CyclesReported(revisions, keys, order, cycles)
    && SlugsReported(files, slugs)
  }

  /** The issues of a report: those of the files, of the heads and of the database. */
  ghost predicate ReportIssues(entries: seq<Entry>, singleHead: bool, dbAtHead: bool, db: DbProbe, report: Report) {
    var revisions := Deduplicated(Parsed(entries));
    exists files, database ::
      && FileIssues(entries, files)
      && DatabaseFindings(revisions, report.heads, dbAtHead, db, report.dbRevisions, database)
      && report.issues == files + (if singleHead && |report.heads| != 1 then [WrongHeadCount(report.heads)] else []) +
                          database
  }

  ghost predicate DatabaseFindings(revisions: Revisions, heads: seq<string>, dbAtHead: bool, db: DbProbe,
                                   dbRevisions: seq<string>, database: seq<Issue>)
  {
    if dbAtHead then DatabaseReported(revisions, heads, db, dbRevisions, database) else database == []
  }

  method CheckFiles(entries: seq<Entry>)
    returns (revisions: Revisions, issues: seq<Issue>, ghost order: seq<string>)
    ensures revisions == Deduplicated(Parsed(entries))
    ensures FileIssues(entries, issues)
    ensures issues == [] <==> FilesAcceptable(entries)
    ensures Acyclic(revisions) ==> UpgradeOrder(DownGraph(revisions), order) && Elements(order) == revisions.Keys
  {
    hide Deduplicated, Parsed, Unparsed, Unshared, UpgradeOrder, GroupedBy, DuplicatesOf, AllParentsKnown, Acyclic,
         DownGraph, FeatureSlug, RevisionOf, DuplicatesReported, MissingReported, CyclesReported, SlugsReported,
         InDeclarationOrder;
    issues := [];
    var parsed, failures, slugs := ReadDirectory(entries);
    if failures != [] {
      issues := [Unparseable(failures)];
    }
    var keys, duplicates;
    revisions, keys, duplicates := Deduplicate(parsed);
    var duplicated := DuplicateIssues(parsed, duplicates);
    issues := issues + duplicated;
    var missing := MissingParents(revisions);
    issues := issues + missing;
    var cycles;
    cycles, order := CycleIssues(revisions, keys);
    issues := issues + cycles;
    var shared := SlugIssues(parsed, slugs);
    issues := issues + shared;
    assert FileFindings(parsed, keys, order, duplicated, missing, cycles, shared);
  }

  method ValidateMigrationGraph(directory: Option<seq<Entry>>, singleHead: bool, dbAtHead: bool, db: DbProbe)
    returns (report: Report, ghost order: seq<string>)
    ensures report.valid <==> report.issues == []
    ensures report.valid <==> Acceptable(directory, singleHead, dbAtHead, db)
    ensures match directory
            case None => report == Report(false, [DirectoryMissing], [], 0, [])
            case Some(entries) =>
              var revisions := Deduplicated(Parsed(entries));
              && ReportIssues(entries, singleHead, dbAtHead, db, report)
              && report.revisionCount == |revisions| && AreHeads(revisions, report.heads)
              && Elements(report.dbRevisions) == if dbAtHead && db.Stamped? then db.rows else {}
    ensures report.valid ==>
              var revisions := Deduplicated(Parsed(directory.value));
              UpgradeOrder(DownGraph(revisions), order) && Elements(order) == revisions.Keys
  {
    hide Deduplicated, Parsed, UpgradeOrder, AreHeads, Acyclic, OneHead, AtHeads, DownGraph, FileIssues,
         FilesAcceptable, DatabaseReported;
    order := [];
    if directory.None? {
      report := Report(false, [DirectoryMissing], [], 0, []);
      return;
    }
    var revisions, issues;
    revisions, issues, order := CheckFiles(directory.value);
    ghost var files := issues;
    if issues == [] {
      AcceptableFilesAreAcyclic(directory.value);
    }

    var heads := HeadRevisions(revisions);
    HeadCount(revisions, heads);
    var headIssues: seq<Issue> := [];
    if singleHead && |heads| != 1 {
      headIssues := [WrongHeadCount(heads)];
    }
    issues := issues + headIssues;

    var dbRevisions: seq<string> := [];
    var database: seq<Issue> := [];
    if dbAtHead {
      database, dbRevisions := CheckDatabase(revisions, heads, db, order);
    }
    issues := issues + database;
    assert FileIssues(directory.value, files);
    assert DatabaseFindings(revisions, heads, dbAtHead, db, dbRevisions, database);
    report := Report(issues == [], issues, heads, |revisions|, dbRevisions);
  }

  lemma AcceptableFilesAreAcyclic(entries: seq<Entry>)
    requires FilesAcceptable(entries)
    ensures Acyclic(Deduplicated(Parsed(entries)))
  {
  }

  lemma EmptyMissing(revisions: Revisions, issues: seq<Issue>)
    requires MissingReported(revisions, issues)
    ensures issues == [] <==> AllParentsKnown(revisions)
  {
    hide MissingReported;
    if issues != [] {
      MissingExactly(revisions, issues, issues[0]);
    } else {
      forall r, p | r in revisions && p in revisions[r].downRevisions ensures p in revisions {
        MissingExactly(revisions, issues, MissingParent(r, revisions[r].name, p));
      }
    }
  }

  // ----- what a valid report means for the whole history

  /** Going back through children from any revision ends at a head. */
  lemma {:induction false} SomeHeadReaches(revisions: Revisions, order: seq<string>, i: nat) returns (h: string)
    requires UpgradeOrder(DownGraph(revisions), order) && Elements(order) == revisions.Keys
    requires i < |order|
    ensures IsHead(revisions, h) && Reach(DownGraph(revisions), h, order[i])
    decreases |order| - i
  {
    var r := order[i];
    assert r in Elements(order);
    if IsHead(revisions, r) {
      h := r;
      ReachSelf(DownGraph(revisions), r);
    } else {
      var c :| c in revisions && r in revisions[c].downRevisions;
      assert c in Elements(order);
      var j :| 0 <= j < |order| && order[j] == c;
      assert Edge(DownGraph(revisions), order[j], order[i]);
      h := SomeHeadReaches(revisions, order, j);
      ReachEdge(DownGraph(revisions), c, r);
      ReachTransitive(DownGraph(revisions), h, c, r);
    }
  }

  /** With both checks on: one head, of which every revision is an ancestor, and it is all the database holds. */
  lemma ValidHistory(entries: seq<Entry>, db: DbProbe, order: seq<string>) returns (head: string)
    requires Acceptable(Some(entries), true, true, db)
    requires var g := DownGraph(Deduplicated(Parsed(entries))); UpgradeOrder(g, order) && Elements(order) == g.Keys
    ensures var revisions := Deduplicated(Parsed(entries));
            && head in revisions
            && (forall r | r in revisions :: Reach(DownGraph(revisions), head, r))
            && db == Stamped({head})
            && (forall r | r in revisions && r != head && r != "" ::
                  exists c :: c in revisions && r in revisions[c].downRevisions)
            && |revisions| == |entries|
  {
    hide Deduplicated, Parsed, Unparsed, UpgradeOrder, Reach, Unshared, ClosedWalk;
    var revisions := Deduplicated(Parsed(entries));
    head :| IsHead(revisions, head) && forall r | IsHead(revisions, r) :: r == head;
    forall r | r in revisions ensures Reach(DownGraph(revisions), head, r) {
      assert r in Elements(order);
      var i :| 0 <= i < |order| && order[i] == r;
      var h := SomeHeadReaches(revisions, order, i);
    }
    assert db.rows == {head};
    forall r | r in revisions && r != head && r != ""
      ensures exists c :: c in revisions && r in revisions[c].downRevisions
    {
      assert !IsHead(revisions, r);
    }
    UnsharedCount(Parsed(entries));
    EachFileParsed(entries);
  }

  lemma {:induction false} EachFileParsed(entries: seq<Entry>)
    ensures |Parsed(entries)| + |Unparsed(entries)| == |entries|
  {
    if entries != [] {
      EachFileParsed(entries[..|entries| - 1]);
    }
  }
}
