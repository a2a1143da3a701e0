// The domain ownership map: `render_domains_yaml` writes it, `load_phase0_domains_map` reads it back line by line.
module DomainMap {
  import opened Options

  type Kinds = map<string, seq<string>>
  type Grouped = map<string, Kinds>

  const KINDS: seq<string> := ["models", "services", "repositories", "schemas", "routers"]
  const KEYWORDS: seq<string> := ["description"] + KINDS

  // ----- characters and lines

  predicate IsLineBreak(c: char) {
    '\n' <= c <= '\r' || '\U{1C}' <= c <= '\U{1E}' || c == '\U{85}' || c == '\U{2028}' || c == '\U{2029}'
  }

  /** What `\s` matches and `strip` removes. */
  predicate IsSpace(c: char) {
    || IsLineBreak(c) || c == ' ' || c == '\t' || c == '\U{1F}' || c == '\U{A0}' || c == '\U{1680}'
    || '\U{2000}' <= c <= '\U{200A}' || c == '\U{202F}' || c == '\U{205F}' || c == '\U{3000}'
  }

  predicate IsNameChar(c: char) { 'a' <= c <= 'z' || c == '_' }

  predicate AllSpace(s: string) { forall c | c in s :: IsSpace(c) }

  predicate OneLine(s: string) { forall c | c in s :: !IsLineBreak(c) }

  function StripRight(s: string): string {
    if s != "" && IsSpace(s[|s| - 1]) then StripRight(s[..|s| - 1]) else s
  }

  function StripLeft(s: string): string {
    if s != "" && IsSpace(s[0]) then StripLeft(s[1..]) else s
  }

  function Strip(s: string): string { StripLeft(StripRight(s)) }

  function StripColons(s: string): string {
    if s != "" && s[|s| - 1] == ':' then StripColons(s[..|s| - 1]) else s
  }

  predicate StartsWithAny(s: string, words: seq<string>) {
    exists w :: w in words && w <= s
  }

  function JoinLines(lines: seq<string>): string {
    if lines == [] then "" else if |lines| == 1 then lines[0] else lines[0] + "\n" + JoinLines(lines[1..])
  }

  function LineLength(s: string): (n: nat)
    ensures n <= |s| && OneLine(s[..n]) && (n < |s| ==> IsLineBreak(s[n]))
  {
    if s == "" || IsLineBreak(s[0]) then 0
    else
      var n := 1 + LineLength(s[1..]);
      assert s[..n] == [s[0]] + s[1..][..n - 1];
      n
  }

  /** `splitlines`: a final line break adds no line, and a carriage return takes a line feed with it. */
  function SplitLines(s: string): seq<string>
    decreases |s|
  {
    if s == "" then []
    else
      var n := LineLength(s);
      if n == |s| then [s]
      else
        var after := if s[n] == '\r' && n + 1 < |s| && s[n + 1] == '\n' then n + 2 else n + 1;
        [s[..n]] + SplitLines(s[after..])
  }

  // ----- writing

  /** What the map needs for the chosen partitions. */
  predicate Covers(partitions: seq<string>, descriptions: map<string, string>, grouped: Grouped) {
    forall p | p in partitions :: p in descriptions && p in grouped && forall k | k in KINDS :: k in grouped[p]
  }

  function Header(stamp: string): seq<string> {
    ["# Repaired domain ownership map", "# Generated: " + stamp, "# Authoritative for modernization phases", "domains:"]
  }

  function ItemLines(modules: seq<string>): seq<string> {
    seq(|modules|, i requires 0 <= i < |modules| => "      - " + modules[i])
  }

  function KindLines(kind: string, modules: seq<string>): seq<string> {
    ["    " + kind + ":"] + if modules == [] then ["      []"] else ItemLines(modules)
  }

  /** The lines of the first `n` kinds. */
  function AllKindLines(kinds: Kinds, n: nat): seq<string>
    requires n <= |KINDS| && forall k | k in KINDS :: k in kinds
  {
    if n == 0 then [] else AllKindLines(kinds, n - 1) + KindLines(KINDS[n - 1], kinds[KINDS[n - 1]])
  }

  function PartitionLines(partition: string, description: string, kinds: Kinds): seq<string>
    requires forall k | k in KINDS :: k in kinds
  {
    ["  " + partition + ":", "    description: " + description] + AllKindLines(kinds, |KINDS|)
  }

  /** The lines of the first `n` partitions. */
  function BodyLines(partitions: seq<string>, descriptions: map<string, string>, grouped: Grouped, n: nat): seq<string>
    requires Covers(partitions, descriptions, grouped) && n <= |partitions|
  {
    if n == 0 then []
    else
      var p := partitions[n - 1];
      BodyLines(partitions, descriptions, grouped, n - 1) + PartitionLines(p, descriptions[p], grouped[p])
  }

  function Rendered(stamp: string, partitions: seq<string>, descriptions: map<string, string>, grouped: Grouped): string
    requires Covers(partitions, descriptions, grouped)
  {
    JoinLines(Header(stamp) + BodyLines(partitions, descriptions, grouped, |partitions|) + [""])
  }

  method RenderDomainsYaml(stamp: string, partitions: seq<string>, descriptions: map<string, string>, grouped: Grouped)
    returns (text: string)
    requires Covers(partitions, descriptions, grouped)
    ensures text == Rendered(stamp, partitions, descriptions, grouped)
  {
    var lines := ["# Repaired domain ownership map"];
    lines := lines + ["# Generated: " + stamp];
    lines := lines + ["# Authoritative for modernization phases"];
    lines := lines + ["domains:"];
    for i := 0 to |partitions|
      invariant lines == Header(stamp) + BodyLines(partitions, descriptions, grouped, i)
    {
      var partition := partitions[i];
      var block := RenderPartition(partition, descriptions[partition], grouped[partition]);
      lines := lines + block;
    }
    lines := lines + [""];
    text := JoinLines(lines);
  }

  /** The body of the loop over the partitions. */
  method RenderPartition(partition: string, description: string, kinds: Kinds) returns (lines: seq<string>)
    requires forall k | k in KINDS :: k in kinds
    ensures lines == PartitionLines(partition, description, kinds)
  {
    hide ItemLines;
    var head := ["  " + partition + ":"];
    head := head + ["    description: " + description];
    lines := head;
    for j := 0 to |KINDS|
      invariant lines == head + AllKindLines(kinds, j)
    {
      var kind := KINDS[j];
      lines := lines + ["    " + kind + ":"];
      var modules := kinds[kind];
      if modules != [] {
        var items := RenderItems(modules);
        lines := lines + items;
      } else {
        lines := lines + ["      []"];
      }
    }
  }

  method RenderItems(modules: seq<string>) returns (lines: seq<string>)
    ensures lines == ItemLines(modules)
  {
    lines := [];
    for m := 0 to |modules|
      invariant lines == ItemLines(modules)[..m]
    {
      lines := lines + ["      - " + modules[m]];
    }
  }

  // ----- reading

  function NameRun(s: string): (n: nat)
    ensures n <= |s|
  {
    if s != "" && IsNameChar(s[0]) then 1 + NameRun(s[1..]) else 0
  }

  predicate IsIndented(line: string, n: nat) {
    |line| >= n && forall i | 0 <= i < n :: IsSpace(line[i])
  }

  /** `^\s{2}[a-z_]+:\s*$` */
  predicate IsNameLine(line: string) {
    IsIndented(line, 2) &&
    var body := line[2..];
    var n := NameRun(body);
    n > 0 && n < |body| && body[n] == ':' && AllSpace(body[n + 1..])
  }

  /** The kind whose name, a colon and white space make up the text. */
  function KindNamed(text: string, kinds: seq<string>): Option<string> {
    if kinds == [] then None
    else if kinds[0] + ":" <= text && AllSpace(text[|kinds[0]| + 1..]) then Some(kinds[0])
    else KindNamed(text, kinds[1..])
  }

  /** `^\s{4}(models|services|repositories|schemas|routers):\s*$` */
  function KindOnLine(line: string): Option<string> {
    if IsIndented(line, 4) then KindNamed(line[4..], KINDS) else None
  }

  /** `^\s{6}-\s+(.+)$`, with the group stripped. */
  function ItemOnLine(line: string): Option<string> {
    if IsIndented(line, 6) && |line| >= 9 && line[6] == '-' && IsSpace(line[7]) then Some(Strip(line[8..])) else None
  }

  datatype State = State(grouped: Grouped, partition: string, kind: string)

  const NO_MODULES: Kinds :=
    map["models" := [], "services" := [], "repositories" := [], "schemas" := [], "routers" := []]

  function Read(s: State, raw: string): State {
    var line := StripRight(raw);
    if IsNameLine(line) && !StartsWithAny(Strip(line), KEYWORDS) then
      var partition := StripColons(Strip(line));
      State(s.grouped[partition := NO_MODULES], partition, "")
    else
      match KindOnLine(line)
      case Some(kind) => s.(kind := kind)
      case None =>
        match ItemOnLine(line)
        case Some(value) =>
          if s.partition != "" && s.kind != "" && value != "[]" then WithModule(s, value) else s
        case None => s
  }

  /** The entry is appended to the current list, when there is one. */
  function WithModule(s: State, value: string): State {
    if s.partition in s.grouped && s.kind in s.grouped[s.partition] then
      var kinds := s.grouped[s.partition];
      s.(grouped := s.grouped[s.partition := kinds[s.kind := kinds[s.kind] + [value]]])
    else s
  }

  function ReadAll(s: State, lines: seq<string>): State {
    if lines == [] then s else Read(ReadAll(s, lines[..|lines| - 1]), lines[|lines| - 1])
  }

  const START := State(map[], "", "")

  /** The list that `WithModule` looks up is always there. */
  ghost predicate Consistent(s: State) {
    && (s.partition != "" ==> s.partition in s.grouped)
    && (forall p | p in s.grouped :: s.grouped[p].Keys == NO_MODULES.Keys)
    && (s.kind != "" ==> s.kind in NO_MODULES)
  }

  method LoadDomainsMap(text: string) returns (grouped: Grouped)
    ensures grouped == ReadAll(START, SplitLines(text)).grouped
  {
    hide IsNameLine, StartsWithAny, KindOnLine, ItemOnLine, StripRight, StripColons, Strip, ReadAll, KINDS, KEYWORDS,
         NO_MODULES;
    grouped := map[];
    NothingRead();
    var currentPartition := "";
    var currentKind := "";
    var lines := SplitLines(text);
    for i := 0 to |lines|
      invariant State(grouped, currentPartition, currentKind) == ReadAll(START, lines[..i])
      invariant Consistent(State(grouped, currentPartition, currentKind))
    {
      LineRead(lines, i);
      var line := StripRight(lines[i]);
      if IsNameLine(line) && !StartsWithAny(Strip(line), KEYWORDS) {
        currentPartition := StripColons(Strip(line));
        grouped := grouped[currentPartition := NO_MODULES];
        currentKind := "";
        continue;
      }
      var kindMatch := KindOnLine(line);
      if kindMatch.Some? {
        KindIsKnown(line);
        currentKind := kindMatch.value;
        continue;
      }
      var itemMatch := ItemOnLine(line);
      if itemMatch.Some? && currentPartition != "" && currentKind != "" {
        var value := itemMatch.value;
        if value != "[]" {
          var kinds := grouped[currentPartition];
          grouped := grouped[currentPartition := kinds[currentKind := kinds[currentKind] + [value]]];
        }
      }
    }
    assert lines[..|lines|] == lines;
  }

  lemma NothingRead()
    ensures ReadAll(START, []) == START
  {
  }

  lemma LineRead(lines: seq<string>, i: nat)
    requires i < |lines|
    ensures ReadAll(START, lines[..i + 1]) == Read(ReadAll(START, lines[..i]), lines[i])
  {
    hide Read;
    assert lines[..i + 1][..i] == lines[..i];
  }

  lemma KindIsKnown(line: string)
    requires KindOnLine(line).Some?
    ensures KindOnLine(line).value in KINDS && KindOnLine(line).value in NO_MODULES && KindOnLine(line).value != ""
  {
    KindNamedIsListed(line[4..], KINDS);
  }

  lemma {:induction false} KindNamedIsListed(text: string, kinds: seq<string>)
    requires KindNamed(text, kinds).Some?
    ensures KindNamed(text, kinds).value in kinds
  {
    if !(kinds[0] + ":" <= text && AllSpace(text[|kinds[0]| + 1..])) {
      KindNamedIsListed(text, kinds[1..]);
    }
  }

  // ----- splitting undoes joining

  lemma LineLengthIs(s: string, n: nat)
    requires n < |s| && OneLine(s[..n]) && IsLineBreak(s[n])
    ensures LineLength(s) == n
  {
    hide IsLineBreak, LineLength, OneLine;
    var m := LineLength(s);
    if m < n {
      OneLineAt(s, n, m);
    } else if n < m {
      OneLineAt(s, m, n);
    }
  }

  lemma OneLineAt(s: string, n: nat, i: nat)
    requires i < n <= |s| && OneLine(s[..n])
    ensures !IsLineBreak(s[i])
  {
    assert s[i] in s[..n];
  }

  lemma {:induction false} SplitUndoesJoin(lines: seq<string>)
    requires forall line | line in lines :: OneLine(line)
    ensures SplitLines(JoinLines(lines + [""])) == lines
  {
    hide IsLineBreak, OneLine;
    if lines == [] {
      assert lines + [""] == [""];
    } else {
      var first, rest := lines[0], lines[1..];
      var text := JoinLines(lines + [""]);
      assert (lines + [""])[1..] == rest + [""];
      assert text == first + "\n" + JoinLines(rest + [""]);
      NewlineBreaks();
      assert text[..|first|] == first;
      LineLengthIs(text, |first|);
      assert text[|first| + 1..] == JoinLines(rest + [""]);
      SplitUndoesJoin(rest);
    }
  }

  lemma NewlineBreaks()
    ensures IsLineBreak('\n')
  {
  }

  lemma {:induction false} SplitGivesLines(s: string)
    ensures forall line | line in SplitLines(s) :: OneLine(line)
    decreases |s|
  {
    hide IsLineBreak, OneLine;
    if s != "" {
      var n := LineLength(s);
      assert s[..|s|] == s;
      if n < |s| {
        SplitGivesLines(s[if s[n] == '\r' && n + 1 < |s| && s[n + 1] == '\n' then n + 2 else n + 1..]);
      }
    }
  }

  // ----- stripping

  lemma {:induction false} StripRightIsPrefix(s: string)
    ensures StripRight(s) <= s
    ensures s != "" && !IsSpace(s[0]) ==> StripRight(s) != ""
    ensures StripRight(s) != "" ==> !IsSpace(StripRight(s)[|StripRight(s)| - 1])
  {
    if s != "" && IsSpace(s[|s| - 1]) {
      StripRightIsPrefix(s[..|s| - 1]);
    }
  }

  lemma {:induction false} StripLeftIsSuffix(s: string)
    ensures |StripLeft(s)| <= |s| && StripLeft(s) == s[|s| - |StripLeft(s)|..]
    ensures StripLeft(s) != "" ==> !IsSpace(StripLeft(s)[0])
    ensures s != "" && !IsSpace(s[|s| - 1]) ==> StripLeft(s) != ""
  {
    if s != "" && IsSpace(s[0]) {
      StripLeftIsSuffix(s[1..]);
    }
  }

  /** No white space at either end. */
  predicate Trimmed(s: string) { s != "" && !IsSpace(s[0]) && !IsSpace(s[|s| - 1]) }

  lemma StripGivesTrimmed(s: string)
    ensures Strip(s) == "" || Trimmed(Strip(s))
    ensures s != "" && !IsSpace(s[|s| - 1]) ==> Strip(s) != ""
  {
    hide IsSpace;
    StripRightIsPrefix(s);
    StripLeftIsSuffix(StripRight(s));
  }

  lemma IndentIsSpace()
    ensures IsSpace(' ') && !IsSpace(':') && !IsSpace('-') && !IsSpace('[') && !IsSpace(']') && !IsSpace('#')
    ensures !IsSpace('d') && !IsSpace('m') && !IsSpace('s') && !IsSpace('r')
    ensures forall c | IsNameChar(c) :: !IsSpace(c)
  {
  }

  // ----- reading each kind of line back

  /** A name the reader recognises as a partition. */
  predicate GoodName(p: string) {
    p != "" && (forall c | c in p :: IsNameChar(c)) && !StartsWithAny(p, KEYWORDS)
  }

  predicate GoodEntry(m: string) {
    Trimmed(m) && OneLine(m) && m != "[]"
  }

  lemma FlushLeftIsSkipped(s: State, line: string)
    requires line != "" && !IsSpace(line[0])
    ensures Read(s, line) == s
  {
    hide IsSpace, Strip, StripColons;
    StripRightIsPrefix(line);
    assert StripRight(line)[0] == line[0];
  }

  lemma {:induction false} NameRunOfName(p: string, rest: string)
    requires (forall c | c in p :: IsNameChar(c)) && rest != "" && !IsNameChar(rest[0])
    ensures NameRun(p + rest) == |p|
  {
    if p == "" {
      assert p + rest == rest;
    } else {
      assert p[0] in p && (p + rest)[1..] == p[1..] + rest;
      NameRunOfName(p[1..], rest);
    }
  }

  lemma KeywordsHaveNoColon(w: string)
    requires w in KEYWORDS
    ensures ':' !in w
  {
  }

  lemma ColonNoKeyword(p: string)
    ensures StartsWithAny(p + ":", KEYWORDS) <==> StartsWithAny(p, KEYWORDS)
  {
    forall w | w in KEYWORDS ensures w <= p + ":" <==> w <= p {
      KeywordsHaveNoColon(w);
      PrefixWithoutColon(w, p);
    }
  }

  lemma PrefixWithoutColon(w: string, p: string)
    requires ':' !in w
    ensures w <= p + ":" <==> w <= p
  {
    if w <= p + ":" && |w| > |p| {
      ColonAtEnd(w, p);
    }
    assert |w| <= |p| ==> (p + ":")[..|w|] == p[..|w|];
  }

  lemma ColonAtEnd(w: string, p: string)
    requires w <= p + ":" && |w| > |p|
    ensures ':' in w
  {
    assert w[|p|] == (p + ":")[|p|];
  }

  lemma NameLineStripped(p: string)
    requires p != "" && forall c | c in p :: IsNameChar(c)
    ensures StripRight("  " + p + ":") == "  " + p + ":" && Strip("  " + p + ":") == p + ":"
    ensures StripColons(p + ":") == p
  {
    hide IsSpace, IsNameChar;
    var line := "  " + p + ":";
    IndentIsSpace();
    ColonIsNoNameChar();
    assert line[1..] == " " + p + ":" && line[1..][1..] == p + ":";
    assert p[0] in p && p[|p| - 1] in p;
    assert StripLeft(line[1..]) == StripLeft(p + ":");
    assert (p + ":")[..|p|] == p;
  }

  lemma ColonIsNoNameChar()
    ensures !IsNameChar(':')
  {
  }

  lemma NameIsRead(s: State, p: string)
    requires GoodName(p)
    ensures Read(s, "  " + p + ":") == State(s.grouped[p := NO_MODULES], p, "")
  {
    hide IsSpace, StripRight, Strip, StripColons, StartsWithAny, IsNameChar;
    var line := "  " + p + ":";
    IndentIsSpace();
    ColonIsNoNameChar();
    NameLineStripped(p);
    ColonNoKeyword(p);
    NameRunOfName(p, ":");
    assert line[2..] == p + ":";
    assert (p + ":")[|p| + 1..] == "";
    assert IsNameLine(line);
  }

  /** A line whose third character is white space names no partition. */
  lemma DeepLineIsNoName(line: string)
    requires |line| >= 3 && IsSpace(line[2])
    ensures !IsNameLine(line)
  {
    IndentIsSpace();
  }

  lemma DescriptionIsSkipped(s: State, d: string)
    ensures Read(s, "    description: " + d) == s
  {
    hide IsSpace, Strip, StripColons, StartsWithAny;
    IndentIsSpace();
    var raw := "    description: " + d;
    var line := StripRight(raw);
    assert raw == "    description:" + (" " + d);
    StripRightKeeps("    description:", " " + d);
    assert line[2] == ' ' && line[4] == 'd';
    DeepLineIsNoName(line);
    NoKindHere(line);
  }

  lemma NoKindHere(line: string)
    requires |line| >= 16 && line[..16] == "    description:"
    ensures KindOnLine(line) == None
  {
    hide IsSpace, AllSpace;
    var text := line[4..];
    assert text[0] == 'd';
    assert KindNamed(text, KINDS[4..]) == None by { assert KINDS[4..] == ["routers"]; KindMismatch(text, KINDS[4..]); }
    assert KINDS[3..][1..] == KINDS[4..]; KindMismatch(text, KINDS[3..]);
    assert KINDS[2..][1..] == KINDS[3..]; KindMismatch(text, KINDS[2..]);
    assert KINDS[1..][1..] == KINDS[2..]; KindMismatch(text, KINDS[1..]);
    KindMismatch(text, KINDS);
  }

  lemma KindMismatch(text: string, kinds: seq<string>)
    requires text != "" && kinds != [] && (kinds[0] == "" || text[0] != kinds[0][0])
    requires kinds[0] != ""
    ensures KindNamed(text, kinds) == KindNamed(text, kinds[1..])
  {
    assert (kinds[0] + ":")[0] == kinds[0][0];
  }

  /** What ends in a visible character survives the stripping of what follows it. */
  lemma {:induction false} StripRightKeeps(head: string, tail: string)
    requires head != "" && !IsSpace(head[|head| - 1])
    ensures head <= StripRight(head + tail)
    decreases |tail|
  {
    hide IsSpace;
    if tail == "" {
      assert head + tail == head;
    } else if IsSpace(tail[|tail| - 1]) {
      assert (head + tail)[..|head + tail| - 1] == head + tail[..|tail| - 1];
      StripRightKeeps(head, tail[..|tail| - 1]);
    }
  }

  lemma {:induction false} KindNamedFound(text: string, k: string, kinds: seq<string>)
    requires k in kinds && text == k + ":"
    requires forall i | 0 <= i < |kinds| :: kinds[i] != k ==> !(kinds[i] + ":" <= text)
    ensures KindNamed(text, kinds) == Some(k)
  {
    if kinds[0] == k {
      assert text[|k| + 1..] == "";
    } else {
      KindNamedFound(text, k, kinds[1..]);
    }
  }

  lemma KindsAreNotPrefixes(k: string)
    requires k in KINDS
    ensures forall i | 0 <= i < |KINDS| :: KINDS[i] != k ==> !(KINDS[i] + ":" <= k + ":")
    ensures k != "" && k in NO_MODULES && IsNameChar(k[0])
  {
    forall i | 0 <= i < |KINDS| && KINDS[i] != k ensures !(KINDS[i] + ":" <= k + ":") {
      assert KINDS[i][0] != k[0] || KINDS[i][1] != k[1];
      assert (KINDS[i] + ":")[0] == KINDS[i][0] && (KINDS[i] + ":")[1] == KINDS[i][1];
      assert (k + ":")[0] == k[0] && (k + ":")[1] == k[1];
    }
  }

  lemma KindIsRead(s: State, k: string)
    requires k in KINDS
    ensures Read(s, "    " + k + ":") == s.(kind := k)
  {
    hide IsSpace, Strip, StripColons, StartsWithAny, IsNameChar;
    var line := "    " + k + ":";
    IndentIsSpace();
    KindsAreNotPrefixes(k);
    assert StripRight(line) == line;
    DeepLineIsNoName(line);
    assert line[4..] == k + ":";
    KindNamedFound(k + ":", k, KINDS);
  }

  /** Beyond the fifth character white space rules out a kind. */
  lemma DeeperLineIsNoKind(line: string)
    requires |line| >= 5 && (IsSpace(line[4]) || line[4] == '-')
    ensures KindOnLine(line) == None
  {
    if IsIndented(line, 4) {
      NoKindStartsSo(line[4..], KINDS);
    }
  }

  lemma {:induction false} NoKindStartsSo(text: string, kinds: seq<string>)
    requires text != "" && !IsNameChar(text[0])
    requires forall i | 0 <= i < |kinds| :: kinds[i] != "" && IsNameChar(kinds[i][0])
    ensures KindNamed(text, kinds) == None
  {
    if kinds != [] {
      assert (kinds[0] + ":")[0] == kinds[0][0];
      NoKindStartsSo(text, kinds[1..]);
    }
  }

  lemma EmptyListIsSkipped(s: State)
    ensures Read(s, "      []") == s
  {
    hide IsSpace, Strip, StripColons, StartsWithAny, IsNameChar;
    var line := "      []";
    IndentIsSpace();
    assert StripRight(line) == line;
    DeepLineIsNoName(line);
    DeeperLineIsNoKind(line);
  }

  lemma TrimmedIsKept(m: string)
    requires Trimmed(m)
    ensures Strip(m) == m
  {
  }

  lemma ItemIsRead(s: State, m: string)
    requires GoodEntry(m) && s.partition != "" && s.kind != ""
    ensures Read(s, "      - " + m) == WithModule(s, m)
  {
    hide IsSpace, Strip, StripColons, StartsWithAny, IsNameChar;
    var line := "      - " + m;
    IndentIsSpace();
    assert line[|line| - 1] == m[|m| - 1];
    assert StripRight(line) == line;
    DeepLineIsNoName(line);
    DeeperLineIsNoKind(line);
    assert line[8..] == m;
    TrimmedIsKept(m);
  }

  // ----- reading the whole text back

  lemma {:induction false} ReadAllSplits(s: State, a: seq<string>, b: seq<string>)
    ensures ReadAll(s, a + b) == ReadAll(ReadAll(s, a), b)
  {
    hide Read;
    if b == [] {
      assert a + b == a;
    } else {
      var n := |b| - 1;
      ReadAllSplits(s, a, b[..n]);
      assert (a + b)[..|a + b| - 1] == a + b[..n];
    }
  }

  lemma ReadOne(s: State, line: string)
    ensures ReadAll(s, [line]) == Read(s, line)
  {
    hide Read;
    assert [line][..0] == [];
  }

  /** The state with these modules as the list of its current partition and kind. */
  ghost function Holding(s: State, modules: seq<string>): State
    requires s.partition in s.grouped
  {
    s.(grouped := s.grouped[s.partition := s.grouped[s.partition][s.kind := modules]])
  }

  lemma {:induction false} ItemsAreRead(s: State, modules: seq<string>)
    requires s.partition != "" && s.kind != ""
    requires s.partition in s.grouped && s.kind in s.grouped[s.partition] && s.grouped[s.partition][s.kind] == []
    requires forall m | m in modules :: GoodEntry(m)
    ensures ReadAll(s, ItemLines(modules)) == Holding(s, modules)
  {
    hide Read, GoodEntry;
    if modules == [] {
      assert s.grouped[s.partition][s.kind := []] == s.grouped[s.partition];
      assert s.grouped[s.partition := s.grouped[s.partition]] == s.grouped;
    } else {
      var n := |modules| - 1;
      ItemsAreRead(s, modules[..n]);
      assert ItemLines(modules)[..n] == ItemLines(modules[..n]);
      ItemIsRead(Holding(s, modules[..n]), modules[n]);
      assert modules == modules[..n] + [modules[n]];
      HoldingOneMore(s, modules[..n], modules[n]);
    }
  }

  lemma HoldingOneMore(s: State, modules: seq<string>, m: string)
    requires s.partition in s.grouped
    ensures WithModule(Holding(s, modules), m) == Holding(s, modules + [m])
  {
    var kinds := s.grouped[s.partition];
    var held := kinds[s.kind := modules];
    assert held[s.kind := held[s.kind] + [m]] == kinds[s.kind := modules + [m]];
    Overwrite(s.grouped, s.partition, held, kinds[s.kind := modules + [m]]);
  }

  lemma Overwrite(grouped: Grouped, p: string, a: Kinds, b: Kinds)
    ensures grouped[p := a][p := b] == grouped[p := b]
  {
  }

  lemma KindBlockIsRead(s: State, kind: string, modules: seq<string>)
    requires kind in KINDS && s.partition != ""
    requires s.partition in s.grouped && kind in s.grouped[s.partition] && s.grouped[s.partition][kind] == []
    requires forall m | m in modules :: GoodEntry(m)
    ensures ReadAll(s, KindLines(kind, modules)) == Holding(s.(kind := kind), modules)
  {
    hide Read, GoodEntry;
    KindsAreNotPrefixes(kind);
    KindIsRead(s, kind);
    ReadOne(s, "    " + kind + ":");
    var s' := s.(kind := kind);
    if modules == [] {
      ReadAllSplits(s, ["    " + kind + ":"], ["      []"]);
      EmptyListIsSkipped(s');
      ReadOne(s', "      []");
      assert s'.grouped[s'.partition][kind := []] == s'.grouped[s'.partition];
      assert s'.grouped[s'.partition := s'.grouped[s'.partition]] == s'.grouped;
    } else {
      ReadAllSplits(s, ["    " + kind + ":"], ItemLines(modules));
      ItemsAreRead(s', modules);
    }
  }

  /** The empty lists, with those of the first `n` kinds filled in. */
  ghost function Filled(kinds: Kinds, n: nat): Kinds
    requires n <= |KINDS| && forall k | k in KINDS :: k in kinds
  {
    if n == 0 then NO_MODULES else Filled(kinds, n - 1)[KINDS[n - 1] := kinds[KINDS[n - 1]]]
  }

  lemma {:induction false} FilledAt(kinds: Kinds, n: nat)
    requires n <= |KINDS| && forall k | k in KINDS :: k in kinds
    ensures Filled(kinds, n).Keys == NO_MODULES.Keys
    ensures forall i | 0 <= i < |KINDS| :: KINDS[i] in Filled(kinds, n) &&
              Filled(kinds, n)[KINDS[i]] == if i < n then kinds[KINDS[i]] else []
  {
    hide KINDS, NO_MODULES;
    KindsDiffer();
    if n > 0 {
      FilledAt(kinds, n - 1);
    }
  }

  lemma KindsDiffer()
    ensures forall i, j | 0 <= i < j < |KINDS| :: KINDS[i] != KINDS[j]
    ensures NO_MODULES.Keys == (set k | k in KINDS)
    ensures forall i | 0 <= i < |KINDS| :: NO_MODULES[KINDS[i]] == []
  {
    assert |"models"| == 6 && |"services"| == 8 && |"repositories"| == 12 && |"schemas"| == 7 && |"routers"| == 7;
    assert "schemas"[0] != "routers"[0];
  }

  lemma {:induction false} KindsAreRead(s: State, kinds: Kinds, n: nat)
    requires n <= |KINDS| && s.partition != "" && s.partition in s.grouped && s.grouped[s.partition] == NO_MODULES
    requires forall k | k in KINDS :: k in kinds && forall m | m in kinds[k] :: GoodEntry(m)
    ensures var end := ReadAll(s, AllKindLines(kinds, n));
            end.partition == s.partition && end.grouped == s.grouped[s.partition := Filled(kinds, n)]
  {
    hide Read, GoodEntry, KindLines, ReadAll;
    if n == 0 {
      ReadNone(s);
      assert s.grouped[s.partition := NO_MODULES] == s.grouped;
    } else {
      KindsAreRead(s, kinds, n - 1);
      FilledAt(kinds, n - 1);
      var before := ReadAll(s, AllKindLines(kinds, n - 1));
      var kind, filled := KINDS[n - 1], Filled(kinds, n - 1);
      assert kind in KINDS;
      KindBlockIsRead(before, kind, kinds[kind]);
      ReadAllSplits(s, AllKindLines(kinds, n - 1), KindLines(kind, kinds[kind]));
      Overwrite(s.grouped, s.partition, filled, filled[kind := kinds[kind]]);
    }
  }

  lemma ReadNone(s: State)
    ensures ReadAll(s, []) == s
  {
  }

  /** The five lists of a partition. */
  function FiveKinds(kinds: Kinds): Kinds
    requires forall k | k in KINDS :: k in kinds
  {
    map k | k in KINDS :: kinds[k]
  }

  lemma AllFilled(kinds: Kinds)
    requires forall k | k in KINDS :: k in kinds
    ensures Filled(kinds, |KINDS|) == FiveKinds(kinds)
  {
    FilledAt(kinds, |KINDS|);
    KindsDiffer();
    forall k | k in KINDS ensures k in Filled(kinds, |KINDS|) && Filled(kinds, |KINDS|)[k] == kinds[k] {
      var i :| 0 <= i < |KINDS| && KINDS[i] == k;
    }
  }

  lemma PartitionIsRead(s: State, p: string, d: string, kinds: Kinds)
    requires GoodName(p)
    requires forall k | k in KINDS :: k in kinds && forall m | m in kinds[k] :: GoodEntry(m)
    ensures ReadAll(s, PartitionLines(p, d, kinds)).grouped == s.grouped[p := FiveKinds(kinds)]
  {
    hide Read, GoodEntry, AllKindLines, StartsWithAny;
    var head, desc := "  " + p + ":", "    description: " + d;
    NameIsRead(s, p);
    ReadOne(s, head);
    var s1 := Read(s, head);
    DescriptionIsSkipped(s1, d);
    ReadOne(s1, desc);
    ReadAllSplits(s, [head], [desc]);
    assert [head] + [desc] == [head, desc];
    KindsAreRead(s1, kinds, |KINDS|);
    AllFilled(kinds);
    ReadAllSplits(s, [head, desc], AllKindLines(kinds, |KINDS|));
    assert s.grouped[p := NO_MODULES][p := FiveKinds(kinds)] == s.grouped[p := FiveKinds(kinds)];
  }

  // ----- the round trip

  /** Names the reader recognises, and entries it gives back as they are. */
  predicate WellFormed(partitions: seq<string>, grouped: Grouped)
    requires forall p | p in partitions :: p in grouped && forall k | k in KINDS :: k in grouped[p]
  {
    forall p | p in partitions :: GoodName(p) && forall k | k in KINDS :: forall m | m in grouped[p][k] :: GoodEntry(m)
  }

  /** What was written: the five lists of each listed partition. */
  function Written(partitions: seq<string>, grouped: Grouped): Grouped
    requires forall p | p in partitions :: p in grouped && forall k | k in KINDS :: k in grouped[p]
  {
    map p | p in partitions :: FiveKinds(grouped[p])
  }

  lemma {:induction false} BodyIsRead(s: State, partitions: seq<string>, descriptions: map<string, string>,
                                      grouped: Grouped, n: nat)
    requires Covers(partitions, descriptions, grouped) && n <= |partitions|
    requires WellFormed(partitions, grouped)
    ensures ReadAll(s, BodyLines(partitions, descriptions, grouped, n)).grouped ==
            s.grouped + Written(partitions[..n], grouped)
  {
    hide Read, GoodEntry, GoodName, PartitionLines, ReadAll, FiveKinds;
    if n == 0 {
      ReadNone(s);
      assert s.grouped + Written(partitions[..0], grouped) == s.grouped;
    } else {
      var p := partitions[n - 1];
      assert p in partitions;
      BodyIsRead(s, partitions, descriptions, grouped, n - 1);
      var before := ReadAll(s, BodyLines(partitions, descriptions, grouped, n - 1));
      PartitionIsRead(before, p, descriptions[p], grouped[p]);
      ReadAllSplits(s, BodyLines(partitions, descriptions, grouped, n - 1),
                    PartitionLines(p, descriptions[p], grouped[p]));
      assert partitions[..n] == partitions[..n - 1] + [p];
      WrittenOneMore(s.grouped, partitions[..n - 1], p, grouped);
    }
  }

  lemma WrittenOneMore(start: Grouped, partitions: seq<string>, p: string, grouped: Grouped)
    requires forall q | q in partitions + [p] :: q in grouped && forall k | k in KINDS :: k in grouped[q]
    ensures p in partitions + [p]
    ensures (start + Written(partitions, grouped))[p := FiveKinds(grouped[p])] ==
            start + Written(partitions + [p], grouped)
  {
    hide FiveKinds;
    assert forall q :: q in partitions + [p] <==> q in partitions || q == p;
  }

  lemma OneLineConcat(a: string, b: string)
    ensures OneLine(a + b) <==> OneLine(a) && OneLine(b)
  {
    hide IsLineBreak;
    assert forall c :: c in a + b <==> c in a || c in b;
  }

  lemma GoodNameIsOneLine(p: string)
    requires GoodName(p)
    ensures OneLine(p)
  {
    hide StartsWithAny;
  }

  lemma PrintableIsOneLine(s: string)
    requires forall i | 0 <= i < |s| :: ' ' <= s[i] <= '~'
    ensures OneLine(s)
  {
  }

  lemma IndentsAreOneLine()
    ensures OneLine("  ") && OneLine(":") && OneLine("    ") && OneLine("      - ") && OneLine("      []")
  {
    hide OneLine;
    PrintableIsOneLine("  ");
    PrintableIsOneLine(":");
    PrintableIsOneLine("    ");
    PrintableIsOneLine("      - ");
    PrintableIsOneLine("      []");
  }

  lemma HeadingsAreOneLine()
    ensures OneLine("# Repaired domain ownership map") && OneLine("# Authoritative for modernization phases")
  {
    hide OneLine;
    PrintableIsOneLine("# Repaired domain ownership map");
    PrintableIsOneLine("# Authoritative for modernization phases");
  }

  lemma LabelsAreOneLine()
    ensures OneLine("    description: ") && OneLine("# Generated: ") && OneLine("domains:")
  {
    hide OneLine;
    PrintableIsOneLine("    description: ");
    PrintableIsOneLine("# Generated: ");
    PrintableIsOneLine("domains:");
  }

  lemma KindsAreOneLine(k: string)
    requires k in KINDS
    ensures OneLine(k)
  {
    hide OneLine;
    PrintableIsOneLine("models");
    PrintableIsOneLine("services");
    PrintableIsOneLine("repositories");
    PrintableIsOneLine("schemas");
    PrintableIsOneLine("routers");
  }

  ghost predicate AllOneLine(lines: seq<string>) { forall line | line in lines :: OneLine(line) }

  lemma KindLinesAreLines(kind: string, modules: seq<string>)
    requires kind in KINDS && forall m | m in modules :: GoodEntry(m)
    ensures AllOneLine(KindLines(kind, modules))
  {
    hide OneLine, Trimmed;
    IndentsAreOneLine();
    KindsAreOneLine(kind);
    OneLineConcat("    ", kind);
    OneLineConcat("    " + kind, ":");
    forall i | 0 <= i < |modules| ensures OneLine(ItemLines(modules)[i]) {
      assert modules[i] in modules;
      OneLineConcat("      - ", modules[i]);
    }
  }

  lemma {:induction false} AllKindLinesAreLines(kinds: Kinds, n: nat)
    requires n <= |KINDS| && forall k | k in KINDS :: k in kinds && forall m | m in kinds[k] :: GoodEntry(m)
    ensures AllOneLine(AllKindLines(kinds, n))
  {
    hide OneLine, GoodEntry, KindLines;
    if n > 0 {
      AllKindLinesAreLines(kinds, n - 1);
      assert KINDS[n - 1] in KINDS;
      KindLinesAreLines(KINDS[n - 1], kinds[KINDS[n - 1]]);
    }
  }

  lemma PartitionLinesAreLines(p: string, d: string, kinds: Kinds)
    requires GoodName(p) && OneLine(d)
    requires forall k | k in KINDS :: k in kinds && forall m | m in kinds[k] :: GoodEntry(m)
    ensures AllOneLine(PartitionLines(p, d, kinds))
  {
    hide OneLine, GoodEntry, GoodName, AllKindLines;
    IndentsAreOneLine();
    LabelsAreOneLine();
    GoodNameIsOneLine(p);
    OneLineConcat("  ", p);
    OneLineConcat("  " + p, ":");
    OneLineConcat("    description: ", d);
    AllKindLinesAreLines(kinds, |KINDS|);
  }

  lemma {:induction false} BodyLinesAreLines(partitions: seq<string>, descriptions: map<string, string>,
                                             grouped: Grouped, n: nat)
    requires Covers(partitions, descriptions, grouped) && n <= |partitions|
    requires WellFormed(partitions, grouped) && forall p | p in partitions :: OneLine(descriptions[p])
    ensures AllOneLine(BodyLines(partitions, descriptions, grouped, n))
  {
    hide OneLine, GoodEntry, GoodName, PartitionLines;
    if n > 0 {
      var p := partitions[n - 1];
      assert p in partitions;
      BodyLinesAreLines(partitions, descriptions, grouped, n - 1);
      PartitionLinesAreLines(p, descriptions[p], grouped[p]);
    }
  }

  lemma HeaderIsSkipped(s: State, stamp: string)
    requires OneLine(stamp)
    ensures ReadAll(s, Header(stamp)) == s && AllOneLine(Header(stamp))
  {
    hide Read, OneLine, IsSpace, ReadAll;
    IndentIsSpace();
    HeadingsAreOneLine();
    LabelsAreOneLine();
    OneLineConcat("# Generated: ", stamp);
    var h := Header(stamp);
    forall i | 0 <= i < |h| ensures Read(s, h[i]) == s {
      FlushLeftIsSkipped(s, h[i]);
    }
    assert h == [h[0]] + [h[1]] + [h[2]] + [h[3]];
    ReadAllSplits(s, [h[0]] + [h[1]] + [h[2]], [h[3]]);
    ReadAllSplits(s, [h[0]] + [h[1]], [h[2]]);
    ReadAllSplits(s, [h[0]], [h[1]]);
    ReadOne(s, h[0]);
    ReadOne(s, h[1]);
    ReadOne(s, h[2]);
    ReadOne(s, h[3]);
  }

  lemma WellFormedIsReadBack(stamp: string, partitions: seq<string>, descriptions: map<string, string>, grouped: Grouped)
    requires Covers(partitions, descriptions, grouped) && WellFormed(partitions, grouped)
    requires OneLine(stamp) && forall p | p in partitions :: OneLine(descriptions[p])
    ensures ReadAll(START, SplitLines(Rendered(stamp, partitions, descriptions, grouped))).grouped ==
            Written(partitions, grouped)
  {
    hide Read, OneLine, WellFormed, BodyLines, Written, SplitLines, JoinLines, ReadAll;
    var body := BodyLines(partitions, descriptions, grouped, |partitions|);
    HeaderIsSkipped(START, stamp);
    BodyLinesAreLines(partitions, descriptions, grouped, |partitions|);
    SplitUndoesJoin(Header(stamp) + body);
    ReadAllSplits(START, Header(stamp), body);
    BodyIsRead(START, partitions, descriptions, grouped, |partitions|);
    assert partitions[..|partitions|] == partitions;
    assert START.grouped + Written(partitions, grouped) == Written(partitions, grouped);
  }

  // ----- what the reader can give back at all

  ghost predicate AllGood(s: State) {
    && Consistent(s)
    && forall p | p in s.grouped :: GoodName(p) && forall k | k in s.grouped[p] :: forall m | m in s.grouped[p][k] :: GoodEntry(m)
  }

  lemma {:induction false} NameRunIsName(s: string)
    ensures forall c | c in s[..NameRun(s)] :: IsNameChar(c)
  {
    if s != "" && IsNameChar(s[0]) {
      NameRunIsName(s[1..]);
      assert s[..NameRun(s)] == [s[0]] + s[1..][..NameRun(s[1..])];
    }
  }

  lemma NameLineShape(line: string) returns (name: string)
    requires IsNameLine(line) && !IsSpace(line[|line| - 1])
    ensures name != "" && (forall c | c in name :: IsNameChar(c))
    ensures Strip(line) == name + ":" && StripColons(Strip(line)) == name
  {
    hide IsSpace, IsNameChar;
    var body := line[2..];
    var n := NameRun(body);
    name := body[..n];
    NameRunIsName(body);
    var tail := body[n + 1..];
    assert tail == "" by {
      if tail != "" {
        LastIsVisible(line, tail);
      }
    }
    assert body == name + ":";
    IndentIsSpace();
    assert name[0] in name && body[0] == name[0];
    assert StripRight(line) == line;
    assert line[1..][1..] == body;
    assert StripLeft(line[1..]) == StripLeft(body) == body;
    NameLineStripped(name);
  }

  lemma LastIsVisible(line: string, tail: string)
    requires tail != "" && |tail| <= |line| && line[|line| - |tail|..] == tail
    requires !IsSpace(line[|line| - 1])
    ensures !AllSpace(tail)
  {
    assert tail[|tail| - 1] in tail;
  }

  lemma {:induction false} SubstringIsOneLine(s: string, lo: nat, hi: nat)
    requires OneLine(s) && lo <= hi <= |s|
    ensures OneLine(s[lo..hi])
  {
    hide IsLineBreak;
    assert forall c | c in s[lo..hi] :: c in s;
  }

  lemma StripIsSubstring(s: string) returns (lo: nat, hi: nat)
    ensures lo <= hi <= |s| && Strip(s) == s[lo..hi]
  {
    hide IsSpace;
    StripRightIsPrefix(s);
    StripLeftIsSuffix(StripRight(s));
    hi := |StripRight(s)|;
    lo := hi - |Strip(s)|;
    assert StripRight(s) == s[..hi];
  }

  lemma ItemIsGood(raw: string)
    requires OneLine(raw) && ItemOnLine(StripRight(raw)).Some?
    ensures var value := ItemOnLine(StripRight(raw)).value; value == "[]" || GoodEntry(value)
  {
    hide IsSpace, OneLine, Strip, StripRight;
    var line := StripRight(raw);
    StripRightIsPrefix(raw);
    StripGivesTrimmed(line[8..]);
    var lo, hi := StripIsSubstring(line[8..]);
    assert line[8..][lo..hi] == raw[8 + lo..8 + hi];
    SubstringIsOneLine(raw, 8 + lo, 8 + hi);
  }

  lemma ReadKeepsGood(s: State, raw: string)
    requires AllGood(s) && OneLine(raw)
    ensures AllGood(Read(s, raw))
  {
    hide IsSpace, OneLine, Strip, StripRight, StripColons, StartsWithAny, IsNameLine, KindOnLine, ItemOnLine, GoodEntry,
         IsNameChar;
    var line := StripRight(raw);
    StripRightIsPrefix(raw);
    if IsNameLine(line) && !StartsWithAny(Strip(line), KEYWORDS) {
      NameLineNotEmpty(line);
      var name := NameLineShape(line);
      ColonNoKeyword(name);
    } else if KindOnLine(line).Some? {
      KindIsKnown(line);
    } else if ItemOnLine(line).Some? {
      ItemIsGood(raw);
      if s.partition != "" && s.kind != "" && ItemOnLine(line).value != "[]" {
        WithModuleKeepsGood(s, ItemOnLine(line).value);
      }
    }
  }

  lemma NameLineNotEmpty(line: string)
    requires IsNameLine(line)
    ensures line != ""
  {
  }

  lemma WithModuleKeepsGood(s: State, m: string)
    requires AllGood(s) && GoodEntry(m)
    ensures AllGood(WithModule(s, m))
  {
    hide GoodName, GoodEntry;
  }

  lemma {:induction false} ReadAllIsGood(lines: seq<string>)
    requires AllOneLine(lines)
    ensures AllGood(ReadAll(START, lines))
  {
    hide Read, OneLine, GoodName, GoodEntry;
    if lines != [] {
      ReadAllIsGood(lines[..|lines| - 1]);
      ReadKeepsGood(ReadAll(START, lines[..|lines| - 1]), lines[|lines| - 1]);
    }
  }

  lemma GoodIsWellFormed(s: State, partitions: seq<string>, grouped: Grouped)
    requires forall p | p in partitions :: p in grouped && forall k | k in KINDS :: k in grouped[p]
    requires AllGood(s) && s.grouped == Written(partitions, grouped)
    ensures WellFormed(partitions, grouped)
  {
    hide GoodName, GoodEntry;
    forall p | p in partitions
      ensures GoodName(p) && forall k | k in KINDS :: forall m | m in grouped[p][k] :: GoodEntry(m)
    {
      assert p in s.grouped && s.grouped[p] == FiveKinds(grouped[p]);
      assert forall k | k in KINDS :: k in s.grouped[p] && s.grouped[p][k] == grouped[p][k];
    }
  }

  /** The map read back is the map written exactly when it is well formed. */
  lemma RoundTripExactly(stamp: string, partitions: seq<string>, descriptions: map<string, string>, grouped: Grouped)
    requires Covers(partitions, descriptions, grouped)
    requires OneLine(stamp) && forall p | p in partitions :: OneLine(descriptions[p])
    ensures (ReadAll(START, SplitLines(Rendered(stamp, partitions, descriptions, grouped))).grouped ==
             Written(partitions, grouped)) <==> WellFormed(partitions, grouped)
  {
    hide Read, OneLine, WellFormed, Written, SplitLines, Rendered, ReadAll, AllGood;
    var lines := SplitLines(Rendered(stamp, partitions, descriptions, grouped));
    if WellFormed(partitions, grouped) {
      WellFormedIsReadBack(stamp, partitions, descriptions, grouped);
    }
    if ReadAll(START, lines).grouped == Written(partitions, grouped) {
      SplitGivesLines(Rendered(stamp, partitions, descriptions, grouped));
      ReadAllIsGood(lines);
      GoodIsWellFormed(ReadAll(START, lines), partitions, grouped);
    }
  }

  const PARTITIONS: seq<string> := [
    "identity_access", "kyc_fraud_compliance", "customer_rental_swap", "finance_wallet_payments", "dealer_portal",
    "logistics_supply", "iot_telematics_system", "comms_content_engagement", "admin_platform_ops", "platform_core"]

  lemma SpelledOut(p: string)
    requires p != "" && forall i | 0 <= i < |p| :: IsNameChar(p[i])
    ensures forall c | c in p :: IsNameChar(c)
  {
  }

  lemma FirstPartitionsAreNames()
    ensures forall i, c | 0 <= i < 5 && c in PARTITIONS[i] :: IsNameChar(c)
  {
    SpelledOut("identity_access");
    SpelledOut("kyc_fraud_compliance");
    SpelledOut("customer_rental_swap");
    SpelledOut("finance_wallet_payments");
    SpelledOut("dealer_portal");
  }

  lemma LastPartitionsAreNames()
    ensures forall i, c | 5 <= i < |PARTITIONS| && c in PARTITIONS[i] :: IsNameChar(c)
  {
    SpelledOut("logistics_supply");
    SpelledOut("iot_telematics_system");
    SpelledOut("comms_content_engagement");
    SpelledOut("admin_platform_ops");
    SpelledOut("platform_core");
  }

  lemma PartitionsAvoidKeywords(i: nat, w: string)
    requires i < |PARTITIONS| && w in KEYWORDS
    ensures PARTITIONS[i] != "" && !(w <= PARTITIONS[i])
  {
    hide IsNameChar;
    var at := if i == 4 then 2 else 0;
    assert |w| > at && |PARTITIONS[i]| > at && w[at] != PARTITIONS[i][at];
  }

  /** The repository's own partition names are all recognised. */
  lemma OwnPartitionsAreGood(p: string)
    requires p in PARTITIONS
    ensures GoodName(p)
  {
    hide IsNameChar;
    var i :| 0 <= i < |PARTITIONS| && PARTITIONS[i] == p;
    FirstPartitionsAreNames();
    LastPartitionsAreNames();
    PartitionsAvoidKeywords(i, "description");
    forall w | w in KEYWORDS ensures !(w <= p) {
      PartitionsAvoidKeywords(i, w);
    }
  }
}
