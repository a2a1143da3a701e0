// `normalize_path` and `join_paths` of the audit script.
module Paths {

  /** Every run of slashes becomes one: `re.sub(r"/+", "/", s)`. */
  function Collapse(s: string): string {
    if |s| < 2 then s
    else if s[0] == '/' && s[1] == '/' then Collapse(s[1..])
    else [s[0]] + Collapse(s[1..])
  }

  function NormalizePath(path: string): string {
    if path == "" then "/"
    else if path[0] != '/' then Collapse("/" + path)
    else Collapse(path)
  }

  function StripRight(s: string): string {
    if s != "" && s[|s| - 1] == '/' then StripRight(s[..|s| - 1]) else s
  }

  function StripLeft(s: string): string {
    if s != "" && s[0] == '/' then StripLeft(s[1..]) else s
  }

  function JoinPaths(a: string, b: string): string {
    if a == "" then NormalizePath(if b == "" then "/" else b)
    else if b == "" then NormalizePath(a)
    else NormalizePath(StripRight(a) + "/" + StripLeft(b))
  }

  // ----- collapsing

  lemma {:induction false} CollapseKeepsFirst(s: string)
    ensures s == "" <==> Collapse(s) == ""
    ensures s != "" ==> Collapse(s)[0] == s[0]
    ensures |Collapse(s)| <= |s|
  {
    if |s| >= 2 {
      CollapseKeepsFirst(s[1..]);
    }
  }

  /** Collapsing a tail first makes no difference; ... */
  lemma {:induction false} CollapseTail(a: string, b: string)
    ensures Collapse(a + b) == Collapse(a + Collapse(b))
  {
    if a == "" {
      assert a + b == b && a + Collapse(b) == Collapse(b);
      CollapseTwice(b);
    } else {
      var rest := a[1..];
      CollapseTail(rest, b);
      CollapseKeepsFirst(b);
      assert (a + b)[1..] == rest + b;
      assert (a + Collapse(b))[1..] == rest + Collapse(b);
    }
  }

  lemma {:induction false} CollapseTwice(s: string)
    ensures Collapse(Collapse(s)) == Collapse(s)
  {
    if |s| >= 2 {
      CollapseTwice(s[1..]);
      CollapseKeepsFirst(s[1..]);
      if !(s[0] == '/' && s[1] == '/') {
        assert ([s[0]] + Collapse(s[1..]))[1..] == Collapse(s[1..]);
      }
    }
  }

  /** ... nor does collapsing a head first. */
  lemma {:induction false} CollapseHead(a: string, b: string)
    ensures Collapse(Collapse(a) + b) == Collapse(a + b)
  {
    hide Collapse;
    if |a| >= 2 {
      CollapseHead(a[1..], b);
      CollapseKeepsFirst(a[1..]);
      var rest := Collapse(a[1..]);
      assert (a + b)[1..] == a[1..] + b;
      CollapseStep(a);
      CollapseStep(a + b);
      if !(a[0] == '/' && a[1] == '/') {
        assert [a[0]] + rest + b == [a[0]] + (rest + b);
        assert ([a[0]] + (rest + b))[1..] == rest + b;
        CollapseStep([a[0]] + (rest + b));
      }
    } else {
      CollapseShort(a);
    }
  }

  lemma CollapseStep(s: string)
    requires |s| >= 2
    ensures Collapse(s) == if s[0] == '/' && s[1] == '/' then Collapse(s[1..]) else [s[0]] + Collapse(s[1..])
  {
  }

  lemma CollapseShort(s: string)
    requires |s| < 2
    ensures Collapse(s) == s
  {
  }

  lemma DoubleSlash(a: string, b: string)
    ensures Collapse(a + "//" + b) == Collapse(a + "/" + b)
  {
    var one, two := "/" + b, "//" + b;
    assert two[1..] == one;
    assert a + "//" + b == a + two && a + "/" + b == a + one;
    CollapseTail(a, two);
    CollapseTail(a, one);
  }

  lemma {:induction false} StripRightAbsorbed(a: string, b: string)
    ensures Collapse(StripRight(a) + "/" + b) == Collapse(a + "/" + b)
  {
    if a != "" && a[|a| - 1] == '/' {
      var shorter := a[..|a| - 1];
      StripRightAbsorbed(shorter, b);
      DoubleSlash(shorter, b);
      assert a + "/" + b == shorter + "//" + b;
    }
  }

  lemma {:induction false} StripLeftAbsorbed(a: string, b: string)
    ensures Collapse(a + "/" + StripLeft(b)) == Collapse(a + "/" + b)
  {
    if b != "" && b[0] == '/' {
      StripLeftAbsorbed(a, b[1..]);
      DoubleSlash(a, b[1..]);
      assert a + "/" + b == a + "//" + b[1..];
    }
  }

  // ----- what the two functions compute

  lemma NormalIsCollapsed(path: string)
    ensures NormalizePath(path) == Collapse("/" + path)
  {
    if path != "" && path[0] == '/' {
      assert ("/" + path)[1..] == path;
    }
  }

  lemma JoinIsCollapsed(a: string, b: string)
    ensures JoinPaths(a, b) ==
            if a == "" then Collapse("/" + b) else if b == "" then Collapse("/" + a) else Collapse("/" + a + "/" + b)
  {
    if a == "" {
      NormalIsCollapsed(if b == "" then "/" else b);
      assert "/" + "" == "/";
    } else if b == "" {
      NormalIsCollapsed(a);
    } else {
      var left, right := StripRight(a), StripLeft(b);
      NormalIsCollapsed(left + "/" + right);
      assert "/" + (left + "/" + right) == ("/" + left) + "/" + right;
      StripLeftAbsorbed("/" + left, b);
      assert ("/" + left) + "/" + b == "/" + (left + "/" + b);
      CollapseTail("/", left + "/" + b);
      StripRightAbsorbed(a, b);
      CollapseTail("/", a + "/" + b);
      assert "/" + (a + "/" + b) == "/" + a + "/" + b;
    }
  }

  lemma NormalizeIdempotent(path: string)
    ensures NormalizePath(NormalizePath(path)) == NormalizePath(path)
  {
    NormalIsCollapsed(path);
    NormalIsCollapsed(NormalizePath(path));
    CollapseTail("/", "/" + path);
    assert "/" + ("/" + path) == "" + "//" + path;
    DoubleSlash("", path);
    assert "" + "/" + path == "/" + path;
  }

  /** Collapsing what has been collapsed, and prefixed with a slash, adds nothing. */
  lemma CollapseInside(a: string, b: string)
    ensures Collapse("/" + Collapse("/" + a) + "/" + b) == Collapse("/" + (a + ("/" + b)))
  {
    hide Collapse;
    var inner := Collapse("/" + a);
    CollapseTail("/", "/" + a);
    assert "/" + ("/" + a) == "" + "//" + a && "/" + a == "" + "/" + a;
    DoubleSlash("", a);
    CollapseHead("/" + inner, "/" + b);
    assert "/" + inner + "/" + b == ("/" + inner) + ("/" + b);
    CollapseHead("/" + a, "/" + b);
    assert ("/" + a) + ("/" + b) == "/" + (a + ("/" + b));
  }

  predicate EndsInSlash(s: string) { s != "" && s[|s| - 1] == '/' }

  /** A leading slash and no two slashes in a row. */
  ghost predicate Canonical(path: string) {
    path != "" && path[0] == '/' && forall i | 0 <= i < |path| - 1 :: path[i] != '/' || path[i + 1] != '/'
  }

  lemma {:induction false} CollapsedHasNoRuns(s: string)
    ensures forall i | 0 <= i < |Collapse(s)| - 1 :: Collapse(s)[i] != '/' || Collapse(s)[i + 1] != '/'
    ensures s != "" ==> Collapse(s) != "" && Collapse(s)[|Collapse(s)| - 1] == s[|s| - 1]
  {
    if |s| >= 2 {
      CollapsedHasNoRuns(s[1..]);
      CollapseKeepsFirst(s[1..]);
    }
    CollapseKeepsFirst(s);
  }

  lemma {:induction false} NoRunsNothingToCollapse(s: string)
    requires forall i | 0 <= i < |s| - 1 :: s[i] != '/' || s[i + 1] != '/'
    ensures Collapse(s) == s
  {
    if |s| >= 2 {
      assert s[0] != '/' || s[0 + 1] != '/';
      forall i | 0 <= i < |s[1..]| - 1 ensures s[1..][i] != '/' || s[1..][i + 1] != '/' {
        assert s[i + 1] != '/' || s[(i + 1) + 1] != '/';
      }
      NoRunsNothingToCollapse(s[1..]);
    }
  }

  /** The canonical paths are exactly those that normalising leaves alone. */
  lemma CanonicalExactly(path: string)
    ensures Canonical(path) <==> NormalizePath(path) == path
    ensures Canonical(NormalizePath(path))
  {
    NormalIsCollapsed(path);
    CollapsedHasNoRuns("/" + path);
    CollapseKeepsFirst("/" + path);
    if Canonical(path) {
      NoRunsNothingToCollapse(path);
    }
  }

  /** Nested joins may be regrouped, except that an empty pair after a path without a final slash adds one. */
  lemma JoinAssociatesExactly(a: string, b: string, c: string)
    ensures JoinPaths(JoinPaths(a, b), c) == JoinPaths(a, JoinPaths(b, c)) <==>
            !(a != "" && !EndsInSlash(a) && b == "" && c == "")
  {
    hide Collapse, JoinPaths;
    JoinIsCollapsed(a, b);
    JoinIsCollapsed(b, c);
    JoinIsCollapsed(JoinPaths(a, b), c);
    JoinIsCollapsed(a, JoinPaths(b, c));
    var ab := if a == "" then "/" + b else if b == "" then "/" + a else "/" + a + "/" + b;
    var bc := if b == "" then "/" + c else if c == "" then "/" + b else "/" + b + "/" + c;
    CollapseKeepsFirst(ab);
    CollapseKeepsFirst(bc);
    LeftGrouping(ab, c);
    RightGrouping(a, bc);
    if a == "" {
      assert c != "" && b != "" ==> ab + "/" + c == bc;
      ExtraSlash("/" + c);
      assert "/" + "" + "/" + c == "/" + ("/" + c) && "/" + "" == "/";
    } else if b == "" && c == "" {
      EmptyPair(a);
      assert bc == "/";
    } else if b == "" {
      assert "/" + a + "/" + c == "/" + a + ("/" + c);
    } else if c == "" {
      assert "/" + a + "/" + b == "/" + a + ("/" + b);
    } else {
      assert ("/" + a + "/" + b) + "/" + c == "/" + a + ("/" + b + "/" + c);
    }
  }

  lemma ExtraSlash(s: string)
    requires s != "" && s[0] == '/'
    ensures Collapse("/" + s) == Collapse(s) && Collapse("/" + Collapse(s)) == Collapse(s)
  {
    assert ("/" + s)[1..] == s;
    CollapseTail("/", s);
  }

  lemma LeftGrouping(ab: string, c: string)
    requires ab != "" && ab[0] == '/'
    ensures Collapse("/" + Collapse(ab)) == Collapse(ab)
    ensures Collapse("/" + Collapse(ab) + "/" + c) == Collapse(ab + "/" + c)
  {
    hide Collapse;
    ExtraSlash(ab);
    CollapseHead("/" + Collapse(ab), "/" + c);
    CollapseHead(ab, "/" + c);
    assert "/" + Collapse(ab) + "/" + c == ("/" + Collapse(ab)) + ("/" + c);
    assert ab + "/" + c == ab + ("/" + c);
  }

  lemma RightGrouping(a: string, bc: string)
    requires bc != "" && bc[0] == '/'
    ensures Collapse("/" + Collapse(bc)) == Collapse(bc)
    ensures Collapse("/" + a + "/" + Collapse(bc)) == Collapse("/" + a + bc)
  {
    hide Collapse;
    ExtraSlash(bc);
    CollapseTail("/" + a, "/" + Collapse(bc));
    CollapseTail("/" + a, bc);
    assert "/" + a + "/" + Collapse(bc) == ("/" + a) + ("/" + Collapse(bc));
  }

  lemma CollapseKeepsLast(s: string)
    requires s != ""
    ensures Collapse(s) != "" && Collapse(s)[|Collapse(s)| - 1] == s[|s| - 1]
  {
    CollapsedHasNoRuns(s);
  }

  lemma EmptyPair(a: string)
    requires a != ""
    ensures Collapse("/" + a) == Collapse("/" + a + "/") <==> EndsInSlash(a)
  {
    hide Collapse;
    CollapseKeepsLast("/" + a);
    CollapseKeepsLast("/" + a + "/");
    if EndsInSlash(a) {
      var shorter := "/" + a[..|a| - 1];
      DoubleSlash(shorter, "");
      assert "/" + a + "/" == shorter + "//" + "";
      assert "/" + a == shorter + "/" + "";
    }
  }

  // ----- the parts of a path

  /** The maximal pieces without a slash. */
  ghost function Parts(s: string): seq<string> {
    if s == "" then []
    else if s[0] == '/' then Parts(s[1..])
    else WithFirst(s[0], |s| >= 2 && s[1] != '/', Parts(s[1..]))
  }

  /** The character begins a part of its own, or the first of these. */
  ghost function WithFirst(c: char, joined: bool, parts: seq<string>): seq<string> {
    if joined && parts != [] then [[c] + parts[0]] + parts[1..] else [[c]] + parts
  }

  lemma {:induction false} CollapseKeepsParts(s: string)
    ensures Parts(Collapse(s)) == Parts(s)
  {
    hide WithFirst;
    if |s| >= 2 {
      CollapseKeepsParts(s[1..]);
      CollapseKeepsFirst(s[1..]);
      if !(s[0] == '/' && s[1] == '/') {
        var t := [s[0]] + Collapse(s[1..]);
        assert t[1..] == Collapse(s[1..]);
      }
    }
  }

  ghost predicate NoRuns(s: string) { forall i | 0 <= i < |s| - 1 :: s[i] != '/' || s[i + 1] != '/' }

  predicate StartsInSlash(s: string) { s != "" && s[0] == '/' }

  lemma NoRunsTail(s: string)
    requires s != "" && NoRuns(s)
    ensures NoRuns(s[1..]) && (s[0] == '/' ==> !StartsInSlash(s[1..]))
    ensures |s| > 1 ==> (EndsInSlash(s[1..]) <==> EndsInSlash(s))
  {
    var t := s[1..];
    forall i | 0 <= i < |t| - 1 ensures t[i] != '/' || t[i + 1] != '/' {
      assert s[i + 1] != '/' || s[(i + 1) + 1] != '/';
    }
    assert |s| > 1 && s[0] == '/' ==> s[0 + 1] != '/';
  }

  lemma {:induction false} PartsBegin(s: string)
    requires s != "" && s[0] != '/'
    ensures Parts(s) != [] && Parts(s)[0] != "" && Parts(s)[0][0] == s[0]
    ensures |Parts(s)[0]| == 1 <==> s[1..] == "" || s[1] == '/'
    ensures Parts(s[1..]) == if |Parts(s)[0]| == 1 then Parts(s)[1..] else [Parts(s)[0][1..]] + Parts(s)[1..]
    decreases |s|
  {
    if |s| >= 2 && s[1] != '/' {
      PartsBegin(s[1..]);
      var rest := Parts(s[1..]);
      assert Parts(s) == [[s[0]] + rest[0]] + rest[1..];
      assert ([s[0]] + rest[0])[1..] == rest[0];
    }
  }

  lemma NoPartsNoName(s: string)
    requires NoRuns(s) && Parts(s) == []
    ensures s == "" || s == "/"
  {
    if s != "" && s[0] != '/' {
      PartsBegin(s);
    } else if |s| > 1 {
      NoRunsTail(s);
      PartsBegin(s[1..]);
    }
  }

  /** Without runs of slashes a text is determined by its parts and by the slashes at its two ends. */
  lemma {:induction false} PartsDetermine(a: string, b: string)
    requires NoRuns(a) && NoRuns(b) && Parts(a) == Parts(b)
    requires (StartsInSlash(a) <==> StartsInSlash(b)) && (EndsInSlash(a) <==> EndsInSlash(b))
    ensures a == b
    decreases |a|
  {
    hide Parts, NoRuns;
    if Parts(a) == [] {
      NoPartsNoName(a);
      NoPartsNoName(b);
    } else if StartsInSlash(a) {
      PartsAfterSlash(a);
      PartsAfterSlash(b);
      PartsDetermine(a[1..], b[1..]);
      assert a == [a[0]] + a[1..] && b == [b[0]] + b[1..];
    } else {
      PartsOfNothing();
      PartsBegin(a);
      PartsBegin(b);
      NoRunsTail(a);
      NoRunsTail(b);
      EndAfterName(a);
      EndAfterName(b);
      PartsDetermine(a[1..], b[1..]);
      assert a == [a[0]] + a[1..] && b == [b[0]] + b[1..];
    }
  }

  lemma PartsOfNothing()
    ensures Parts("") == []
  {
  }

  lemma PartsAfterSlash(s: string)
    requires NoRuns(s) && StartsInSlash(s) && Parts(s) != []
    ensures Parts(s[1..]) == Parts(s) && NoRuns(s[1..]) && !StartsInSlash(s[1..])
    ensures EndsInSlash(s[1..]) <==> EndsInSlash(s)
  {
    NoRunsTail(s);
  }

  /** What follows the first character, when that is no slash. */
  lemma EndAfterName(s: string)
    requires s != "" && s[0] != '/' && NoRuns(s)
    ensures EndsInSlash(s[1..]) <==> EndsInSlash(s)
    ensures StartsInSlash(s[1..]) <==> |Parts(s)[0]| == 1 && (EndsInSlash(s) || Parts(s[1..]) != [])
  {
    hide NoRuns;
    PartsBegin(s);
    NoRunsTail(s);
    PartsOfNothing();
    if StartsInSlash(s[1..]) && Parts(s[1..]) == [] {
      NoPartsNoName(s[1..]);
    }
  }

  /** Normalising gives the one canonical path with the same parts and the same slash at its end. */
  lemma NormalizeExactly(path: string, q: string)
    ensures NormalizePath(path) == q <==>
            Canonical(q) && Parts(q) == Parts(path) && (EndsInSlash(q) <==> EndsInSlash("/" + path))
  {
    hide Parts, Collapse, NoRuns;
    var n := NormalizePath(path);
    NormalIsCollapsed(path);
    CanonicalExactly(path);
    CollapseKeepsParts("/" + path);
    SlashAddsNoPart(path);
    CollapseKeepsLast("/" + path);
    if Canonical(q) && Parts(q) == Parts(path) && (EndsInSlash(q) <==> EndsInSlash("/" + path)) {
      CanonicalHasNoRuns(q);
      CanonicalHasNoRuns(n);
      PartsDetermine(n, q);
    }
  }

  lemma SlashAddsNoPart(s: string)
    ensures Parts("/" + s) == Parts(s)
  {
    assert ("/" + s)[1..] == s;
  }

  lemma CanonicalHasNoRuns(path: string)
    requires Canonical(path)
    ensures NoRuns(path) && StartsInSlash(path)
  {
  }
}
