// The description of each partition, and the time stamp, as they stand in the text of the ownership map.
module DomainDescriptions {
  import opened Options
  import opened DomainMap

  function LabelledOn(line: string): Option<string> {
    if "    description: " <= line then Some(line[17..]) else None
  }

  /** Each description in the text, with the line before it. */
  function Described(prev: string, lines: seq<string>): seq<(string, string)>
    decreases |lines|
  {
    if lines == [] then []
    else (if LabelledOn(lines[0]).Some? then [(prev, LabelledOn(lines[0]).value)] else []) + Described(lines[0], lines[1..])
  }

  lemma {:induction false} DescribedSplits(prev: string, a: seq<string>, b: seq<string>)
    ensures Described(prev, a + b) == Described(prev, a) + Described(if a == [] then prev else a[|a| - 1], b)
    decreases |a|
  {
    hide LabelledOn;
    if a == [] {
      assert a + b == b;
    } else {
      assert (a + b)[1..] == a[1..] + b;
      DescribedSplits(a[0], a[1..], b);
    }
  }

  lemma {:induction false} NothingDescribed(prev: string, lines: seq<string>)
    requires forall line | line in lines :: LabelledOn(line) == None
    ensures Described(prev, lines) == []
    decreases |lines|
  {
    hide LabelledOn;
    if lines != [] {
      NothingDescribed(lines[0], lines[1..]);
    }
  }

  /** The first character by which a line differs from the label. */
  lemma NotLabelled(line: string, at: nat)
    requires at < |line| && at < 5 && line[at] != (if at < 4 then ' ' else 'd')
    ensures LabelledOn(line) == None
  {
    assert "    description: "[at] == if at < 4 then ' ' else 'd';
  }

  lemma KindLinesNotLabelled(kind: string, modules: seq<string>, line: string)
    requires kind in KINDS && line in KindLines(kind, modules)
    ensures LabelledOn(line) == None
  {
    if line == "    " + kind + ":" {
      assert line[4] == kind[0] != 'd';
    } else {
      assert line[4] == ' ';
    }
    NotLabelled(line, 4);
  }

  lemma {:induction false} AllKindLinesNotLabelled(kinds: Kinds, n: nat, line: string)
    requires n <= |KINDS| && (forall k | k in KINDS :: k in kinds) && line in AllKindLines(kinds, n)
    ensures LabelledOn(line) == None
  {
    hide KindLines, LabelledOn;
    if line in AllKindLines(kinds, n - 1) {
      AllKindLinesNotLabelled(kinds, n - 1, line);
    } else {
      KindLinesNotLabelled(KINDS[n - 1], kinds[KINDS[n - 1]], line);
    }
  }

  lemma PartitionIsDescribed(prev: string, p: string, d: string, kinds: Kinds)
    requires GoodName(p) && forall k | k in KINDS :: k in kinds
    ensures Described(prev, PartitionLines(p, d, kinds)) == [("  " + p + ":", d)]
  {
    hide AllKindLines, StartsWithAny, LabelledOn, Described;
    var head, entry, rest := "  " + p + ":", "    description: " + d, AllKindLines(kinds, |KINDS|);
    HeadNotLabelled(p);
    LabelIsRead(d);
    forall line | line in rest ensures LabelledOn(line) == None {
      AllKindLinesNotLabelled(kinds, |KINDS|, line);
    }
    NothingDescribed(entry, rest);
    DescribedSplits(prev, [head, entry], rest);
    TwoDescribed(prev, head, entry);
    assert [("  " + p + ":", d)] + [] == [("  " + p + ":", d)];
  }

  lemma HeadNotLabelled(p: string)
    requires GoodName(p)
    ensures LabelledOn("  " + p + ":") == None
  {
    hide StartsWithAny, LabelledOn;
    assert ("  " + p + ":")[2] == p[0] && p[0] in p;
    NotLabelled("  " + p + ":", 2);
  }

  lemma LabelIsRead(d: string)
    ensures LabelledOn("    description: " + d) == Some(d)
  {
    assert ("    description: " + d)[17..] == d;
  }

  lemma TwoDescribed(prev: string, head: string, entry: string)
    requires LabelledOn(head) == None && LabelledOn(entry).Some?
    ensures Described(prev, [head, entry]) == [(head, LabelledOn(entry).value)]
  {
    hide LabelledOn;
    assert [head, entry][1..] == [entry] && [entry][1..] == [];
    assert Described(entry, []) == [];
    assert Described(head, [entry]) == [(head, LabelledOn(entry).value)];
  }

  /** What the text should say: each partition's heading and its description, in order. */
  function Expected(partitions: seq<string>, descriptions: map<string, string>, n: nat): seq<(string, string)>
    requires n <= |partitions| && forall p | p in partitions :: p in descriptions
  {
    seq(n, i requires 0 <= i < n => ("  " + partitions[i] + ":", descriptions[partitions[i]]))
  }

  lemma {:induction false} BodyIsDescribed(prev: string, partitions: seq<string>, descriptions: map<string, string>,
                                           grouped: Grouped, n: nat)
    requires Covers(partitions, descriptions, grouped) && n <= |partitions| && forall p | p in partitions :: GoodName(p)
    ensures Described(prev, BodyLines(partitions, descriptions, grouped, n)) == Expected(partitions, descriptions, n)
  {
    hide PartitionLines, GoodName, Described;
    if n == 0 {
      NothingDescribed(prev, []);
    } else {
      var p := partitions[n - 1];
      assert p in partitions;
      var before := BodyLines(partitions, descriptions, grouped, n - 1);
      BodyIsDescribed(prev, partitions, descriptions, grouped, n - 1);
      DescribedSplits(prev, before, PartitionLines(p, descriptions[p], grouped[p]));
      PartitionIsDescribed(if before == [] then prev else before[|before| - 1], p, descriptions[p], grouped[p]);
    }
  }

  lemma HeaderIsNotDescribed(stamp: string)
    ensures Described("", Header(stamp)) == []
  {
    hide LabelledOn, Described;
    forall line | line in Header(stamp) ensures LabelledOn(line) == None {
      assert line[0] == '#' || line[0] == 'd';
      NotLabelled(line, 0);
    }
    NothingDescribed("", Header(stamp));
  }

  /** Every partition's heading is followed by its own description, in order, and the stamp stands in the second line. */
  lemma DescriptionsAreRead(stamp: string, partitions: seq<string>, descriptions: map<string, string>, grouped: Grouped)
    requires Covers(partitions, descriptions, grouped) && WellFormed(partitions, grouped)
    requires OneLine(stamp) && forall p | p in partitions :: OneLine(descriptions[p])
    ensures var lines := SplitLines(Rendered(stamp, partitions, descriptions, grouped));
            && Described("", lines) == Expected(partitions, descriptions, |partitions|)
            && |lines| > 1 && lines[1] == "# Generated: " + stamp
  {
    hide Read, OneLine, BodyLines, SplitLines, JoinLines, GoodName, GoodEntry, Described;
    var body := BodyLines(partitions, descriptions, grouped, |partitions|);
    HeaderIsSkipped(START, stamp);
    BodyLinesAreLines(partitions, descriptions, grouped, |partitions|);
    SplitUndoesJoin(Header(stamp) + body);
    HeaderIsNotDescribed(stamp);
    DescribedSplits("", Header(stamp), body);
    BodyIsDescribed("domains:", partitions, descriptions, grouped, |partitions|);
    assert (Header(stamp) + body)[1] == Header(stamp)[1];
    assert [] + Expected(partitions, descriptions, |partitions|) == Expected(partitions, descriptions, |partitions|);
  }

  // ----- the layout of a partition

  /** The five kinds come in this order. */
  lemma OrderOfKinds(kinds: Kinds)
    requires forall k | k in KINDS :: k in kinds
    ensures "models" in kinds && "services" in kinds && "repositories" in kinds && "schemas" in kinds && "routers" in kinds
    ensures AllKindLines(kinds, 5) ==
            KindLines("models", kinds["models"]) + KindLines("services", kinds["services"]) +
            KindLines("repositories", kinds["repositories"]) + KindLines("schemas", kinds["schemas"]) +
            KindLines("routers", kinds["routers"])
  {
    hide KindLines;
    assert KINDS[0] in KINDS && KINDS[1] in KINDS && KINDS[2] in KINDS && KINDS[3] in KINDS && KINDS[4] in KINDS;
    assert AllKindLines(kinds, 0) == [];
    assert AllKindLines(kinds, 1) == KindLines("models", kinds["models"]);
    assert AllKindLines(kinds, 2) == AllKindLines(kinds, 1) + KindLines("services", kinds["services"]);
    assert AllKindLines(kinds, 3) == AllKindLines(kinds, 2) + KindLines("repositories", kinds["repositories"]);
    assert AllKindLines(kinds, 4) == AllKindLines(kinds, 3) + KindLines("schemas", kinds["schemas"]);
    assert AllKindLines(kinds, 5) == AllKindLines(kinds, 4) + KindLines("routers", kinds["routers"]);
  }

  lemma EmptyKind(kind: string, line: string)
    requires Spells(kind, line)
    ensures KindLines(kind, []) == [line, "      []"]
  {
    assert line == line[..4] + line[4..|line| - 1] + [line[|line| - 1]];
  }

  predicate Spells(kind: string, line: string) {
    |line| == |kind| + 5 && line[..4] == "    " && line[4..|line| - 1] == kind && line[|line| - 1] == ':'
  }

  lemma OneService()
    ensures KindLines("services", ["app.s"]) == ["    services:", "      - app.s"]
  {
    assert "    " + "services" + ":" == "    services:";
    assert "      - " + "app.s" == "      - app.s";
  }

  /** One partition with one service, written out. */
  lemma SmallestMap(kinds: Kinds)
    requires kinds == map["models" := [], "services" := ["app.s"], "repositories" := [], "schemas" := [], "routers" := []]
    ensures PartitionLines("ops", "Operations", kinds) == [
              "  ops:",
              "    description: Operations",
              "    models:", "      []",
              "    services:", "      - app.s",
              "    repositories:", "      []",
              "    schemas:", "      []",
              "    routers:", "      []"]
  {
    hide KindLines, AllKindLines;
    assert "  " + "ops" + ":" == "  ops:" && "    description: " + "Operations" == "    description: Operations";
    EmptyKind("models", "    models:");
    OneService();
    EmptyKind("repositories", "    repositories:");
    EmptyKind("schemas", "    schemas:");
    EmptyKind("routers", "    routers:");
    OrderOfKinds(kinds);
  }
}
