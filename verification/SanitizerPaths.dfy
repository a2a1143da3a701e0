// What a reader of the sanitized tree sees at each path: the value at the same path of the input, unless it is
// too deep, redacted, or beyond a limit.
module SanitizerPaths {
  import opened Options
  import opened Sanitizer

  datatype Step = Key(key: string) | Index(index: nat)

  /** What stands at the end of a path of the input. */
  datatype End = TooDeep | Hidden | Value(obj: Obj)

  /** The item whose key, cut at 128 characters, is the last among the first `n` to read `k`. */
  ghost predicate LastUnder(items: seq<(string, Id)>, n: nat, k: string, i: int) {
    && 0 <= i < n <= |items| && Shortened(items[i].0, 128, k)
    && forall j | i < j < n :: !Shortened(items[j].0, 128, k)
  }

  function Least(a: nat, b: nat): nat { if a < b then a else b }

  /** The path leads from the value to this end; dumps are looked through, and each value is one level deeper. */
  ghost predicate Leads(cfg: Settings, heap: Heap, id: Id, depth: nat, path: seq<Step>, end: End)
    requires Closed(heap) && id in heap
    decreases 6 - depth, 1
  {
    if depth > 5 then path == [] && end == TooDeep
    else if heap[id].Dumpable? && heap[id].dumped.Some? then
      assert Children(heap[id])[0] in heap;
      Leads(cfg, heap, heap[id].dumped.value, depth + 1, path, end)
    else if path == [] then end == Value(heap[id])
    else if heap[id].Dict? && path[0].Key? then
      var items, k := heap[id].items, path[0].key;
      && !(|items| > cfg.MaxItems() && k == "__truncated_items__")
      && exists i :: LastUnder(items, Least(|items|, cfg.MaxItems()), k, i) && ItemLeads(cfg, heap, id, depth, i, path, end)
    else if heap[id].Collection? && path[0].Index? then
      && path[0].index < Least(|heap[id].elements|, cfg.MaxItems())
      && assert Children(heap[id])[path[0].index] in heap;
         Leads(cfg, heap, heap[id].elements[path[0].index], depth + 1, path[1..], end)
    else false
  }

  /** Through the `i`th item of a dictionary. */
  ghost predicate ItemLeads(cfg: Settings, heap: Heap, id: Id, depth: nat, i: int, path: seq<Step>, end: End)
    requires Closed(heap) && id in heap && heap[id].Dict? && path != [] && path[0].Key? && depth <= 5
    decreases 6 - depth, 0
  {
    && 0 <= i < |heap[id].items|
    && if cfg.redact && Marked(path[0].key) then |path| == 1 && end == Hidden
       else assert Children(heap[id])[i] in heap; Leads(cfg, heap, heap[id].items[i].1, depth + 1, path[1..], end)
  }

  function At(out: Out, path: seq<Step>): Option<Out>
    decreases |path|
  {
    if path == [] then Some(out)
    else
      match (out, path[0])
      case (Obj(entries), Key(k)) => if k in entries then At(entries[k], path[1..]) else None
      case (List(elements), Index(i)) => if i < |elements| then At(elements[i], path[1..]) else None
      case _ => None
  }

  ghost predicate ShowsText(cfg: Settings, source: string, out: Out) {
    out.Str? && Shortened(source, cfg.MaxFieldLen(), out.text)
  }

  /** The keys are those of the first items, and a count of the others if there are any. */
  ghost predicate ShowsItems(cfg: Settings, items: seq<(string, Id)>, out: Out) {
    var n := cfg.MaxItems();
    && out.Obj?
    && (forall k :: k in out.entries <==>
          (|items| > n && k == "__truncated_items__") || exists i :: LastUnder(items, Least(|items|, n), k, i))
    && (|items| > n ==> out.entries["__truncated_items__"] == Count(|items| - n))
  }

  /** As many as there are elements, or up to the limit and a notice of how many are left out. */
  ghost predicate ShowsElements(cfg: Settings, count: nat, out: Out) {
    var n := cfg.MaxItems();
    && out.List? && |out.elements| == (if count <= n then count else n + 1)
    && (count > n ==> out.elements[n] == Str("...(truncated:" + Decimal(count - n) + ")"))
  }

  /** How a value that is not looked through appears. */
  ghost predicate Displays(cfg: Settings, obj: Obj, out: Out) {
    match obj
    case Scalar(value) => out == Leaf(value)
    case Text(text) => ShowsText(cfg, text, out)
    case Dict(items) => ShowsItems(cfg, items, out)
    case Collection(elements) => ShowsElements(cfg, |elements|, out)
    case Dumpable(_, repr) => ShowsText(cfg, repr, out)
    case Opaque(jsonSafe, repr) => if jsonSafe then out == Leaf(repr) else ShowsText(cfg, repr, out)
  }

  ghost predicate Appears(cfg: Settings, end: End, out: Out) {
    match end
    case TooDeep => out == Str("<max_depth>")
    case Hidden => out == Str("***REDACTED***")
    case Value(obj) => Displays(cfg, obj, out)
  }

  lemma ShortenedOnlySo(source: string, maxLen: nat, t: string)
    requires maxLen > 0
    ensures Shortened(source, maxLen, t) <==> t == TruncateString(source, maxLen)
  {
    hide Decimal;
    TruncatedIsShortened(source, maxLen);
    if |source| > maxLen && Shortened(source, maxLen, t) {
      var kept, removed :| Cut(source, maxLen, kept, removed) && t == kept + ("...(truncated:" + Decimal(|removed|) + ")");
      assert kept == source[..maxLen];
      assert t == source[..maxLen] + Suffix(|source| - maxLen);
    }
  }

  lemma KeyIsLast(heap: Heap, id: Id, n: nat, k: string, i: int)
    requires id in heap && heap[id].Dict? && n <= |heap[id].items| && LastUnder(heap[id].items, n, k, i)
    ensures 0 <= i < n && KeyAt(heap, id, i) == k && forall j | i < j < n :: KeyAt(heap, id, j) != k
  {
    hide Shortened, TruncateString;
    forall j | 0 <= j < n ensures KeyAt(heap, id, j) == k <==> Shortened(heap[id].items[j].0, 128, k) {
      ShortenedOnlySo(heap[id].items[j].0, 128, k);
    }
  }

  /** The entries have exactly the keys of the items they are made from. */
  lemma {:induction false} EntriesHaveKeys(cfg: Settings, heap: Heap, id: Id, depth: nat, n: nat, k: string)
    requires Closed(heap) && id in heap && heap[id].Dict? && n <= |heap[id].items| && depth <= MAX_DEPTH
    ensures k in Entries(cfg, heap, id, depth, n) <==> exists i :: LastUnder(heap[id].items, n, k, i)
    decreases n
  {
    hide Shortened, TruncateString, ValueAt, Closed, LastUnder;
    var items := heap[id].items;
    if n == 0 {
      forall i ensures !LastUnder(items, 0, k, i) {
        NoneUnder(items, k, i);
      }
    } else {
      EntriesHaveKeys(cfg, heap, id, depth, n - 1, k);
      ShortenedOnlySo(items[n - 1].0, 128, k);
      var m := n - 1;
      OneMoreUnder(items, n, k, m);
      if i :| LastUnder(items, n, k, i) {
        OneMoreUnder(items, n, k, i);
      }
      if i :| LastUnder(items, m, k, i) {
        OneMoreUnder(items, n, k, i);
      }
    }
  }

  lemma NoneUnder(items: seq<(string, Id)>, k: string, i: int)
    ensures !LastUnder(items, 0, k, i)
  {
  }

  lemma OneMoreUnder(items: seq<(string, Id)>, n: nat, k: string, i: int)
    requires 0 < n <= |items|
    ensures LastUnder(items, n, k, i) <==>
            if Shortened(items[n - 1].0, 128, k) then i == n - 1 else LastUnder(items, n - 1, k, i)
  {
    hide Shortened;
  }

  lemma ItemsAreShown(cfg: Settings, heap: Heap, id: Id, depth: nat)
    requires Closed(heap) && id in heap && heap[id].Dict? && depth <= MAX_DEPTH
    ensures ShowsItems(cfg, heap[id].items, Sanitized(cfg, heap, id, depth))
  {
    hide LastUnder, Closed, Entries, Sanitized;
    var items := heap[id].items;
    var n := Least(|items|, cfg.MaxItems());
    DictSanitized(cfg, heap, id, depth);
    forall k ensures k in Entries(cfg, heap, id, depth, n) <==> exists i :: LastUnder(items, n, k, i) {
      EntriesHaveKeys(cfg, heap, id, depth, n, k);
    }
  }

  lemma ElementsAreShown(cfg: Settings, heap: Heap, id: Id, depth: nat)
    requires Closed(heap) && id in heap && heap[id].Collection? && depth <= MAX_DEPTH
    ensures var out := Sanitized(cfg, heap, id, depth); var elements := heap[id].elements;
            && ShowsElements(cfg, |elements|, out)
            && forall i | 0 <= i < Least(|elements|, cfg.MaxItems()) ::
                 elements[i] in heap && out.elements[i] == Sanitized(cfg, heap, elements[i], depth + 1)
  {
    hide Decimal;
    ElementsInHeap(heap, id);
  }

  lemma ValueIsShown(cfg: Settings, heap: Heap, id: Id, depth: nat)
    requires Closed(heap) && id in heap && depth <= MAX_DEPTH && !(heap[id].Dumpable? && heap[id].dumped.Some?)
    ensures Displays(cfg, heap[id], Sanitized(cfg, heap, id, depth))
  {
    hide Shortened, TruncateString, ShowsItems, ShowsElements, Closed, DictOf;
    match heap[id]
    case Text(text) => TruncatedIsShortened(text, cfg.MaxFieldLen());
    case Dict(_) => ItemsAreShown(cfg, heap, id, depth);
    case Collection(_) => ElementsAreShown(cfg, heap, id, depth);
    case Dumpable(_, repr) => TruncatedIsShortened(repr, cfg.MaxFieldLen());
    case Opaque(_, repr) => TruncatedIsShortened(repr, cfg.MaxFieldLen());
    case Scalar(_) =>
  }

  /** Under the key of the last shown item that has it. */
  lemma ItemIsShown(cfg: Settings, heap: Heap, id: Id, depth: nat, k: string, i: int)
    requires Closed(heap) && id in heap && heap[id].Dict? && depth <= MAX_DEPTH
    requires LastUnder(heap[id].items, Least(|heap[id].items|, cfg.MaxItems()), k, i)
    requires !(|heap[id].items| > cfg.MaxItems() && k == "__truncated_items__")
    ensures 0 <= i < |heap[id].items| && heap[id].items[i].1 in heap
    ensures var out := Sanitized(cfg, heap, id, depth);
            && out.Obj? && k in out.entries
            && out.entries[k] == if cfg.redact && Marked(k) then Str("***REDACTED***")
                                 else Sanitized(cfg, heap, heap[id].items[i].1, depth + 1)
  {
    hide LastUnder, Closed, Entries, Sanitized, IsSensitiveKey, Marked, TruncateString;
    var n := Least(|heap[id].items|, cfg.MaxItems());
    DictSanitized(cfg, heap, id, depth);
    KeyIsLast(heap, id, n, k, i);
    ChildInHeap(heap, id, i);
    LastItemWins(cfg, heap, id, depth, n, i);
    SensitiveExactly(k);
  }

  /** Wherever a path of the input leads, the output shows the value there at the same path. */
  lemma {:induction false} ShownAtSamePath(cfg: Settings, heap: Heap, id: Id, depth: nat, path: seq<Step>, end: End)
    requires Closed(heap) && id in heap && Leads(cfg, heap, id, depth, path, end)
    ensures At(Sanitized(cfg, heap, id, depth), path).Some?
    ensures Appears(cfg, end, At(Sanitized(cfg, heap, id, depth), path).value)
    decreases 6 - depth, 1
  {
    hide Displays, LastUnder, Marked, DictOf, TruncateString;
    if depth <= MAX_DEPTH {
      if heap[id].Dumpable? && heap[id].dumped.Some? {
        assert Children(heap[id])[0] in heap;
        ShownAtSamePath(cfg, heap, heap[id].dumped.value, depth + 1, path, end);
      } else if path == [] {
        ValueIsShown(cfg, heap, id, depth);
      } else if heap[id].Dict? {
        ShownBelowKey(cfg, heap, id, depth, path, end);
      } else {
        ElementsAreShown(cfg, heap, id, depth);
        ShownAtSamePath(cfg, heap, heap[id].elements[path[0].index], depth + 1, path[1..], end);
      }
    }
  }

  lemma ShownBelowKey(cfg: Settings, heap: Heap, id: Id, depth: nat, path: seq<Step>, end: End)
    requires Closed(heap) && id in heap && heap[id].Dict? && depth <= MAX_DEPTH && path != []
    requires Leads(cfg, heap, id, depth, path, end)
    ensures At(Sanitized(cfg, heap, id, depth), path).Some?
    ensures Appears(cfg, end, At(Sanitized(cfg, heap, id, depth), path).value)
    decreases 6 - depth, 0
  {
    hide Displays, LastUnder, Marked, Sanitized, Closed;
    var items, k := heap[id].items, path[0].key;
    var i :| LastUnder(items, Least(|items|, cfg.MaxItems()), k, i) && ItemLeads(cfg, heap, id, depth, i, path, end);
    ItemIsShown(cfg, heap, id, depth, k, i);
    if !(cfg.redact && Marked(k)) {
      ShownAtSamePath(cfg, heap, items[i].1, depth + 1, path[1..], end);
    }
  }

  // ----- and nothing else is shown

  /** The step from the value to the notice of what it leaves out. */
  ghost predicate NoticeStep(cfg: Settings, obj: Obj, step: Step) {
    match obj
    case Dict(items) => |items| > cfg.MaxItems() && step == Key("__truncated_items__")
    case Collection(elements) => |elements| > cfg.MaxItems() && step == Index(cfg.MaxItems())
    case _ => false
  }

  ghost predicate LeadsToNotice(cfg: Settings, heap: Heap, id: Id, depth: nat, path: seq<Step>, obj: Obj)
    requires Closed(heap) && id in heap
  {
    path != [] && Leads(cfg, heap, id, depth, path[..|path| - 1], Value(obj)) && NoticeStep(cfg, obj, path[|path| - 1])
  }

  /** The path is one that the input accounts for. */
  ghost predicate Accounted(cfg: Settings, heap: Heap, id: Id, depth: nat, path: seq<Step>)
    requires Closed(heap) && id in heap
  {
    || (exists end :: Leads(cfg, heap, id, depth, path, end))
    || (exists obj :: LeadsToNotice(cfg, heap, id, depth, path, obj))
  }

  lemma AccountedHere(cfg: Settings, heap: Heap, id: Id, depth: nat, path: seq<Step>)
    requires Closed(heap) && id in heap && depth <= 5 && !(heap[id].Dumpable? && heap[id].dumped.Some?)
    requires path == [] || (|path| == 1 && NoticeStep(cfg, heap[id], path[0]))
    ensures Accounted(cfg, heap, id, depth, path)
  {
    hide NoticeStep;
    assert Leads(cfg, heap, id, depth, [], Value(heap[id]));
    if path == [] {
      assert Leads(cfg, heap, id, depth, path, Value(heap[id]));
    } else {
      assert path[..|path| - 1] == [];
      assert LeadsToNotice(cfg, heap, id, depth, path, heap[id]);
    }
  }

  lemma AccountedThroughDump(cfg: Settings, heap: Heap, id: Id, depth: nat, path: seq<Step>)
    requires Closed(heap) && id in heap && depth <= 5 && heap[id].Dumpable? && heap[id].dumped.Some?
    requires heap[id].dumped.value in heap && Accounted(cfg, heap, heap[id].dumped.value, depth + 1, path)
    ensures Accounted(cfg, heap, id, depth, path)
  {
    hide NoticeStep;
    var dump, below := heap[id].dumped.value, depth + 1;
    if obj :| LeadsToNotice(cfg, heap, dump, below, path, obj) {
      assert LeadsToNotice(cfg, heap, id, depth, path, obj);
    } else {
      var end :| Leads(cfg, heap, dump, below, path, end);
      assert Leads(cfg, heap, id, depth, path, end);
    }
  }

  /** Every way on from below leads there from above. */
  lemma AccountedBelow(cfg: Settings, heap: Heap, id: Id, depth: nat, child: Id, below: nat, path: seq<Step>)
    requires Closed(heap) && id in heap && child in heap && path != []
    requires Accounted(cfg, heap, child, below, path[1..])
    requires forall p, end | Leads(cfg, heap, child, below, p, end) :: Leads(cfg, heap, id, depth, [path[0]] + p, end)
    ensures Accounted(cfg, heap, id, depth, path)
  {
    hide Leads, NoticeStep;
    var rest := path[1..];
    assert [path[0]] + rest == path;
    if obj :| LeadsToNotice(cfg, heap, child, below, rest, obj) {
      assert [path[0]] + rest[..|rest| - 1] == path[..|path| - 1];
      assert LeadsToNotice(cfg, heap, id, depth, path, obj);
    } else {
      var end :| Leads(cfg, heap, child, below, rest, end);
      assert Leads(cfg, heap, id, depth, path, end);
    }
  }

  lemma {:induction false} NothingElseIsShown(cfg: Settings, heap: Heap, id: Id, depth: nat, path: seq<Step>)
    requires Closed(heap) && id in heap && At(Sanitized(cfg, heap, id, depth), path).Some?
    ensures Accounted(cfg, heap, id, depth, path)
    decreases 6 - depth, 1
  {
    hide Accounted, LastUnder, Marked, DictOf, TruncateString, Leads;
    if depth > MAX_DEPTH {
      DeepEnds(cfg, heap, id, depth, path);
    } else if heap[id].Dumpable? && heap[id].dumped.Some? {
      assert Children(heap[id])[0] in heap;
      NothingElseIsShown(cfg, heap, heap[id].dumped.value, depth + 1, path);
      AccountedThroughDump(cfg, heap, id, depth, path);
    } else if path == [] {
      AccountedHere(cfg, heap, id, depth, path);
    } else if heap[id].Dict? {
      NothingElseBelowKey(cfg, heap, id, depth, path);
    } else if heap[id].Collection? {
      NothingElseBelowIndex(cfg, heap, id, depth, path);
    }
  }

  lemma DeepEnds(cfg: Settings, heap: Heap, id: Id, depth: nat, path: seq<Step>)
    requires Closed(heap) && id in heap && depth > MAX_DEPTH && At(Sanitized(cfg, heap, id, depth), path).Some?
    ensures Accounted(cfg, heap, id, depth, path)
  {
    assert path == [];
    assert Leads(cfg, heap, id, depth, path, TooDeep);
  }

  lemma NothingElseBelowKey(cfg: Settings, heap: Heap, id: Id, depth: nat, path: seq<Step>)
    requires Closed(heap) && id in heap && heap[id].Dict? && depth <= MAX_DEPTH && path != []
    requires At(Sanitized(cfg, heap, id, depth), path).Some?
    ensures Accounted(cfg, heap, id, depth, path)
    decreases 6 - depth, 0
  {
    hide Accounted, LastUnder, Marked, Closed, Sanitized, Leads;
    ItemsAreShown(cfg, heap, id, depth);
    var items, k := heap[id].items, path[0].key;
    if |items| > cfg.MaxItems() && k == "__truncated_items__" {
      AccountedHere(cfg, heap, id, depth, path);
    } else {
      var i :| LastUnder(items, Least(|items|, cfg.MaxItems()), k, i);
      ItemIsShown(cfg, heap, id, depth, k, i);
      if cfg.redact && Marked(k) {
        HiddenEnds(cfg, heap, id, depth, path, i);
      } else {
        var below := depth + 1;
        NothingElseIsShown(cfg, heap, items[i].1, below, path[1..]);
        forall p, end | Leads(cfg, heap, items[i].1, below, p, end)
          ensures Leads(cfg, heap, id, depth, [path[0]] + p, end)
        {
          LeadsThroughItem(cfg, heap, id, depth, k, i, p, end);
        }
        AccountedBelow(cfg, heap, id, depth, items[i].1, below, path);
      }
    }
  }

  lemma HiddenEnds(cfg: Settings, heap: Heap, id: Id, depth: nat, path: seq<Step>, i: int)
    requires Closed(heap) && id in heap && heap[id].Dict? && depth <= MAX_DEPTH && |path| == 1 && path[0].Key?
    requires LastUnder(heap[id].items, Least(|heap[id].items|, cfg.MaxItems()), path[0].key, i)
    requires !(|heap[id].items| > cfg.MaxItems() && path[0].key == "__truncated_items__")
    requires cfg.redact && Marked(path[0].key)
    ensures Accounted(cfg, heap, id, depth, path)
  {
    hide Marked, Shortened;
    assert ItemLeads(cfg, heap, id, depth, i, path, Hidden);
    assert Leads(cfg, heap, id, depth, path, Hidden);
  }

  lemma LeadsThroughItem(cfg: Settings, heap: Heap, id: Id, depth: nat, k: string, i: int, p: seq<Step>, end: End)
    requires Closed(heap) && id in heap && heap[id].Dict? && depth <= MAX_DEPTH
    requires LastUnder(heap[id].items, Least(|heap[id].items|, cfg.MaxItems()), k, i)
    requires !(|heap[id].items| > cfg.MaxItems() && k == "__truncated_items__")
    requires !(cfg.redact && Marked(k)) && heap[id].items[i].1 in heap
    requires Leads(cfg, heap, heap[id].items[i].1, depth + 1, p, end)
    ensures Leads(cfg, heap, id, depth, [Key(k)] + p, end)
  {
    hide Marked, Shortened;
    var path := [Key(k)] + p;
    assert path[1..] == p;
    assert ItemLeads(cfg, heap, id, depth, i, path, end);
  }

  lemma NothingElseBelowIndex(cfg: Settings, heap: Heap, id: Id, depth: nat, path: seq<Step>)
    requires Closed(heap) && id in heap && heap[id].Collection? && depth <= MAX_DEPTH && path != []
    requires At(Sanitized(cfg, heap, id, depth), path).Some?
    ensures Accounted(cfg, heap, id, depth, path)
    decreases 6 - depth, 0
  {
    hide Accounted, Closed, Sanitized, Leads;
    ElementsAreShown(cfg, heap, id, depth);
    var elements, i := heap[id].elements, path[0].index;
    if i == cfg.MaxItems() {
      AccountedHere(cfg, heap, id, depth, path);
    } else {
      var below := depth + 1;
      NothingElseIsShown(cfg, heap, elements[i], below, path[1..]);
      forall p, end | Leads(cfg, heap, elements[i], below, p, end)
        ensures Leads(cfg, heap, id, depth, [path[0]] + p, end)
      {
        LeadsThroughElement(cfg, heap, id, depth, i, p, end);
      }
      AccountedBelow(cfg, heap, id, depth, elements[i], below, path);
    }
  }

  lemma LeadsThroughElement(cfg: Settings, heap: Heap, id: Id, depth: nat, i: nat, p: seq<Step>, end: End)
    requires Closed(heap) && id in heap && heap[id].Collection? && depth <= MAX_DEPTH
    requires i < Least(|heap[id].elements|, cfg.MaxItems()) && heap[id].elements[i] in heap
    requires Leads(cfg, heap, heap[id].elements[i], depth + 1, p, end)
    ensures Leads(cfg, heap, id, depth, [Index(i)] + p, end)
  {
    assert ([Index(i)] + p)[1..] == p;
  }
}
