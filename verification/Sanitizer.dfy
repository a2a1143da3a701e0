// `sanitize_for_logging`: arbitrary values, possibly cyclic, become bounded and redacted trees.
// Values live in a heap and refer to each other by identity, so only the depth counter ends the recursion.
module Sanitizer {
  import opened Options

  const REDACTED := "***REDACTED***"
  const TOO_DEEP := "<max_depth>"
  const TRUNCATED_ITEMS := "__truncated_items__"
  const MAX_KEY: nat := 128
  const MAX_DEPTH: nat := 5

  const MARKERS: seq<string> := [
    "password", "secret", "token", "authorization", "cookie", "apikey", "api_key",
    "access_key", "private_key", "refresh", "otp", "pin", "passcode", "signature"]

  /** `max_items` is at least 1 and `max_field_len` at least 32 whatever the settings say. */
  datatype Settings = Settings(collectionItems: int, fieldLength: int, redact: bool) {
    function MaxItems(): (n: nat)
      ensures var wanted := if collectionItems == 0 then 50 else collectionItems; n >= 1 && n >= wanted && (n == 1 || n == wanted)
    {
      if collectionItems == 0 then 50 else if collectionItems < 1 then 1 else collectionItems
    }

    function MaxFieldLen(): (n: nat)
      ensures var wanted := if fieldLength == 0 then 2048 else fieldLength; n >= 32 && n >= wanted && (n == 32 || n == wanted)
    {
      if fieldLength == 0 then 2048 else if fieldLength < 32 then 32 else fieldLength
    }
  }

  type Id = nat

  /** A value to be logged.  `Scalar` stands for the leaves that are passed on as they are. */
  datatype Obj =
    | Scalar(value: string)
    | Text(text: string)
    | Dict(items: seq<(string, Id)>)
    | Collection(elements: seq<Id>)
    | Dumpable(dumped: Option<Id>, repr: string)
    | Opaque(jsonSafe: bool, repr: string)

  type Heap = map<Id, Obj>

  datatype Out =
    | Leaf(value: string)
    | Str(text: string)
    | Count(n: nat)
    | Obj(entries: map<string, Out>)
    | List(elements: seq<Out>)

  function Children(o: Obj): seq<Id> {
    match o
    case Dict(items) => seq(|items|, i requires 0 <= i < |items| => items[i].1)
    case Collection(elements) => elements
    case Dumpable(Some(id), _) => [id]
    case _ => []
  }

  ghost predicate Closed(heap: Heap) {
    forall id, i | id in heap && 0 <= i < |Children(heap[id])| :: Children(heap[id])[i] in heap
  }

  // ----- strings

  function Decimal(n: nat): (s: string)
    ensures s != [] && forall c | c in s :: '0' <= c <= '9'
  {
    var digit := '0' + (n % 10) as char;
    if n < 10 then [digit] else Decimal(n / 10) + [digit]
  }

  function Suffix(cut: nat): string { "...(truncated:" + Decimal(cut) + ")" }

  function TruncateString(value: string, maxLen: int): string {
    if maxLen <= 0 || |value| <= maxLen then value
    else value[..maxLen] + Suffix(|value| - maxLen)
  }

  function Lower(c: char): char {
    if 'A' <= c <= 'Z' then c + 32 as char else c
  }

  /** `key.lower().replace("-", "_")`, character by character. */
  function Normal(c: char): char {
    if c == '-' then '_' else Lower(c)
  }

  function Normalized(key: string): string {
    seq(|key|, i requires 0 <= i < |key| => Normal(key[i]))
  }

  predicate Occurs(pattern: string, s: string, at: int) {
    0 <= at <= |s| - |pattern| && forall j | 0 <= j < |pattern| :: s[at + j] == pattern[j]
  }

  predicate IsSensitiveKey(key: string) {
    exists m, at | 0 <= m < |MARKERS| && 0 <= at <= |key| :: Occurs(MARKERS[m], Normalized(key), at)
  }

  // ----- what the result should be

  function Sanitized(cfg: Settings, heap: Heap, id: Id, depth: nat): Out
    requires Closed(heap) && id in heap
    decreases MAX_DEPTH + 1 - depth, 1, 0
  {
    if depth > MAX_DEPTH then Str(TOO_DEEP)
    else
      match heap[id]
      case Scalar(value) => Leaf(value)
      case Text(text) => Str(TruncateString(text, cfg.MaxFieldLen()))
      case Dict(items) =>
        var n := if |items| < cfg.MaxItems() then |items| else cfg.MaxItems();
        DictOf(cfg, heap, id, depth, n)
      case Collection(elements) =>
        var n := if |elements| < cfg.MaxItems() then |elements| else cfg.MaxItems();
        assert forall i | 0 <= i < n :: elements[i] == Children(heap[id])[i];
        var shown := seq(n, i requires 0 <= i < n => Sanitized(cfg, heap, elements[i], depth + 1));
        List(shown + if |elements| > n then [Str(Suffix(|elements| - n))] else [])
      case Dumpable(Some(dump), _) =>
        assert dump == Children(heap[id])[0];
        Sanitized(cfg, heap, dump, depth + 1)
      case Dumpable(None, repr) => Str(TruncateString(repr, cfg.MaxFieldLen()))
      case Opaque(jsonSafe, repr) => if jsonSafe then Leaf(repr) else Str(TruncateString(repr, cfg.MaxFieldLen()))
  }

  function KeyAt(heap: Heap, id: Id, i: nat): string
    requires id in heap && heap[id].Dict? && i < |heap[id].items|
  {
    TruncateString(heap[id].items[i].0, MAX_KEY)
  }

  function ValueAt(cfg: Settings, heap: Heap, id: Id, depth: nat, i: nat): Out
    requires Closed(heap) && id in heap && heap[id].Dict? && i < |heap[id].items| && depth <= MAX_DEPTH
    decreases MAX_DEPTH + 1 - depth, 0, 0
  {
    assert heap[id].items[i].1 == Children(heap[id])[i];
    if cfg.redact && IsSensitiveKey(KeyAt(heap, id, i)) then Str(REDACTED)
    else Sanitized(cfg, heap, heap[id].items[i].1, depth + 1)
  }

  /** The entries made from the first `n` items: the last item of a key wins. */
  function Entries(cfg: Settings, heap: Heap, id: Id, depth: nat, n: nat): map<string, Out>
    requires Closed(heap) && id in heap && heap[id].Dict? && n <= |heap[id].items| && depth <= MAX_DEPTH
    decreases MAX_DEPTH + 1 - depth, 0, n + 1
  {
    if n == 0 then map[]
    else Entries(cfg, heap, id, depth, n - 1)[KeyAt(heap, id, n - 1) := ValueAt(cfg, heap, id, depth, n - 1)]
  }

  function DictOf(cfg: Settings, heap: Heap, id: Id, depth: nat, n: nat): Out
    requires Closed(heap) && id in heap && heap[id].Dict? && n <= |heap[id].items| && depth <= MAX_DEPTH
    decreases MAX_DEPTH + 1 - depth, 0, n + 2
  {
    var entries := Entries(cfg, heap, id, depth, n);
    Obj(if |heap[id].items| > n then entries[TRUNCATED_ITEMS := Count(|heap[id].items| - n)] else entries)
  }

  // ----- the code

  /** 1 + m + m^2 + ... + m^d */
  function Geometric(m: nat, d: nat): nat {
    if d == 0 then 1 else 1 + m * Geometric(m, d - 1)
  }

  /** `calls` counts this call and all it leads to. */
  method SanitizeForLogging(cfg: Settings, heap: Heap, id: Id, depth: nat) returns (out: Out, ghost calls: nat)
    requires Closed(heap) && id in heap && depth <= MAX_DEPTH + 1
    ensures out == Sanitized(cfg, heap, id, depth)
    ensures 1 <= calls <= Geometric(cfg.MaxItems(), MAX_DEPTH + 1 - depth)
    decreases MAX_DEPTH + 1 - depth, 1
  {
    hide TruncateString, Suffix, DictOf, Entries;
    calls := 1;
    if depth > MAX_DEPTH {
      return Str(TOO_DEEP), calls;
    }
    match heap[id]
    case Scalar(value) => out := Leaf(value);
    case Text(text) => out := Str(TruncateString(text, cfg.MaxFieldLen()));
    case Dict(_) =>
      out, calls := SanitizeDict(cfg, heap, id, depth);
    case Collection(_) =>
      out, calls := SanitizeCollection(cfg, heap, id, depth);
    case Dumpable(dumped, repr) =>
      match dumped {
        case Some(dump) =>
          assert dump == Children(heap[id])[0];
          ghost var more;
          out, more := SanitizeForLogging(cfg, heap, dump, depth + 1);
          calls := calls + more;
          Scale(1, cfg.MaxItems(), Geometric(cfg.MaxItems(), MAX_DEPTH - depth));
        case None => out := Str(TruncateString(repr, cfg.MaxFieldLen()));
      }
    case Opaque(jsonSafe, repr) =>
      out := if jsonSafe then Leaf(repr) else Str(TruncateString(repr, cfg.MaxFieldLen()));
  }

  /** The branch for dictionaries. */
  method SanitizeDict(cfg: Settings, heap: Heap, id: Id, depth: nat) returns (out: Out, ghost calls: nat)
    requires Closed(heap) && id in heap && heap[id].Dict? && depth <= MAX_DEPTH
    ensures out == Sanitized(cfg, heap, id, depth)
    ensures 1 <= calls <= Geometric(cfg.MaxItems(), MAX_DEPTH + 1 - depth)
    decreases MAX_DEPTH + 1 - depth, 0
  {
    hide TruncateString, Suffix, IsSensitiveKey, Sanitized, Entries, DictOf, Geometric, Closed;
    DictSanitized(cfg, heap, id, depth);
    var items, maxItems := heap[id].items, cfg.MaxItems();
    ghost var n := if |items| < maxItems then |items| else maxItems;
    ghost var perChild := Geometric(maxItems, MAX_DEPTH - depth);
    calls := 1;
    var entries: map<string, Out> := map[];
    var idx := 0;
    while idx < |items|
      invariant 0 <= idx <= n && entries == Entries(cfg, heap, id, depth, idx)
      invariant 1 <= calls <= 1 + idx * perChild
    {
      if idx >= maxItems {
        entries := entries[TRUNCATED_ITEMS := Count(|items| - maxItems)];
        break;
      }
      var key := TruncateString(items[idx].0, MAX_KEY);
      if cfg.redact && IsSensitiveKey(key) {
        entries := entries[key := Str(REDACTED)];
      } else {
        ChildInHeap(heap, id, idx);
        var value, more := SanitizeForLogging(cfg, heap, items[idx].1, depth + 1);
        entries := entries[key := value];
        calls := calls + more;
      }
      EntriesStep(cfg, heap, id, depth, idx);
      NextChild(idx, perChild);
      idx := idx + 1;
    }
    Scale(n, maxItems, perChild);
    GeometricStep(maxItems, MAX_DEPTH + 1 - depth);
    out := Obj(entries);
  }

  /** The branch for lists, tuples and sets. */
  method SanitizeCollection(cfg: Settings, heap: Heap, id: Id, depth: nat) returns (out: Out, ghost calls: nat)
    requires Closed(heap) && id in heap && heap[id].Collection? && depth <= MAX_DEPTH
    ensures out == Sanitized(cfg, heap, id, depth)
    ensures 1 <= calls <= Geometric(cfg.MaxItems(), MAX_DEPTH + 1 - depth)
    decreases MAX_DEPTH + 1 - depth, 0
  {
    hide TruncateString, Suffix, Sanitized, Geometric, Closed, Children;
    var elements, maxItems := heap[id].elements, cfg.MaxItems();
    var n := if |elements| < maxItems then |elements| else maxItems;
    ghost var perChild := Geometric(maxItems, MAX_DEPTH - depth);
    ElementsInHeap(heap, id);
    calls := 1;
    var result: seq<Out> := [];
    for i := 0 to n
      invariant |result| == i
      invariant forall k | 0 <= k < i :: result[k] == Sanitized(cfg, heap, elements[k], depth + 1)
      invariant 1 <= calls <= 1 + i * perChild
    {
      var value, more := SanitizeForLogging(cfg, heap, elements[i], depth + 1);
      result := result + [value];
      calls := calls + more;
      NextChild(i, perChild);
    }
    Scale(n, maxItems, perChild);
    GeometricStep(maxItems, MAX_DEPTH + 1 - depth);
    CollectionSanitized(cfg, heap, id, depth, result);
    if |elements| > maxItems {
      result := result + [Str(Suffix(|elements| - maxItems))];
    }
    out := List(result);
  }

  lemma ElementsInHeap(heap: Heap, id: Id)
    requires Closed(heap) && id in heap && heap[id].Collection?
    ensures forall i | 0 <= i < |heap[id].elements| :: heap[id].elements[i] in heap
  {
    assert Children(heap[id]) == heap[id].elements;
  }

  lemma CollectionSanitized(cfg: Settings, heap: Heap, id: Id, depth: nat, shown: seq<Out>)
    requires Closed(heap) && id in heap && heap[id].Collection? && depth <= MAX_DEPTH
    requires forall i | 0 <= i < |heap[id].elements| :: heap[id].elements[i] in heap
    requires |shown| == if |heap[id].elements| < cfg.MaxItems() then |heap[id].elements| else cfg.MaxItems()
    requires forall i | 0 <= i < |shown| :: shown[i] == Sanitized(cfg, heap, heap[id].elements[i], depth + 1)
    ensures var cut := |heap[id].elements| - |shown|;
            Sanitized(cfg, heap, id, depth) == List(shown + if cut > 0 then [Str(Suffix(cut))] else [])
  {
    hide Suffix;
    var elements := heap[id].elements;
    assert seq(|shown|, i requires 0 <= i < |shown| => Sanitized(cfg, heap, elements[i], depth + 1)) == shown;
  }

  lemma DictSanitized(cfg: Settings, heap: Heap, id: Id, depth: nat)
    requires Closed(heap) && id in heap && heap[id].Dict? && depth <= MAX_DEPTH
    ensures var items, maxItems := heap[id].items, cfg.MaxItems();
            var n := if |items| < maxItems then |items| else maxItems;
            && Entries(cfg, heap, id, depth, 0) == map[]
            && Sanitized(cfg, heap, id, depth) ==
               Obj(if |items| > n then Entries(cfg, heap, id, depth, n)[TRUNCATED_ITEMS := Count(|items| - n)]
                   else Entries(cfg, heap, id, depth, n))
  {
  }

  lemma EntriesStep(cfg: Settings, heap: Heap, id: Id, depth: nat, i: nat)
    requires Closed(heap) && id in heap && heap[id].Dict? && i < |heap[id].items| && depth <= MAX_DEPTH
    ensures heap[id].items[i].1 in heap
    ensures var key := TruncateString(heap[id].items[i].0, MAX_KEY);
            Entries(cfg, heap, id, depth, i + 1) ==
            Entries(cfg, heap, id, depth, i)[key :=
              if cfg.redact && IsSensitiveKey(key) then Str(REDACTED)
              else Sanitized(cfg, heap, heap[id].items[i].1, depth + 1)]
  {
    ChildInHeap(heap, id, i);
  }

  lemma ChildInHeap(heap: Heap, id: Id, i: nat)
    requires Closed(heap) && id in heap && heap[id].Dict? && i < |heap[id].items|
    ensures heap[id].items[i].1 in heap
  {
    assert heap[id].items[i].1 == Children(heap[id])[i];
  }

  lemma NextChild(i: nat, x: nat)
    ensures (i + 1) * x == i * x + x
  {
  }

  lemma GeometricStep(m: nat, d: nat)
    requires d > 0
    ensures Geometric(m, d) == 1 + m * Geometric(m, d - 1)
  {
  }

  lemma Scale(n: nat, m: nat, x: nat)
    requires n <= m
    ensures n * x <= m * x
  {
  }

  // ----- truncation says what it removes

  /** Reads a number back. */
  ghost function Number(s: string): int {
    if s == "" then 0 else 10 * Number(s[..|s| - 1]) + (s[|s| - 1] as int - '0' as int)
  }

  lemma {:induction false} DecimalIsRead(n: nat)
    ensures Number(Decimal(n)) == n
  {
    var last := [Decimal(n)[|Decimal(n)| - 1]];
    if n < 10 {
      assert last[..0] == "";
    } else {
      DecimalIsRead(n / 10);
      assert Decimal(n) == Decimal(n / 10) + ['0' + (n % 10) as char];
      assert Decimal(n)[..|Decimal(n)| - 1] == Decimal(n / 10);
    }
  }

  lemma SuffixIsRead(n: nat, m: nat)
    requires Suffix(n) == Suffix(m)
    ensures n == m
  {
    var head := "...(truncated:";
    assert Suffix(n)[|head|..|Suffix(n)| - 1] == Decimal(n);
    assert Suffix(m)[|head|..|Suffix(m)| - 1] == Decimal(m);
    DecimalIsRead(n);
    DecimalIsRead(m);
  }

  /** Two strings look the same after truncation exactly when they agree in length and up to the limit. */
  lemma TruncationTells(a: string, b: string, maxLen: int)
    ensures TruncateString(a, maxLen) == TruncateString(b, maxLen) <==>
            |a| == |b| && if maxLen <= 0 || |a| <= maxLen then a == b else a[..maxLen] == b[..maxLen]
  {
    hide Suffix;
    if 0 < maxLen < |a| && maxLen < |b| {
      var kept, other := TruncateString(a, maxLen), TruncateString(b, maxLen);
      assert kept[..maxLen] == a[..maxLen] && other[..maxLen] == b[..maxLen];
      assert kept[maxLen..] == Suffix(|a| - maxLen) && other[maxLen..] == Suffix(|b| - maxLen);
      if kept == other {
        SuffixIsRead(|a| - maxLen, |b| - maxLen);
      }
    } else if 0 < maxLen {
      SuffixIsLong(|a| - maxLen);
      SuffixIsLong(|b| - maxLen);
    }
  }

  lemma SuffixIsLong(cut: int)
    ensures cut >= 0 ==> |Suffix(cut)| > 0
  {
  }

  // ----- bounds

  /** `t` is the source, or the part of it up to the limit and a suffix with the number of characters removed. */
  ghost predicate Shortened(source: string, maxLen: nat, t: string) {
    || (|source| <= maxLen && t == source)
    || (exists kept, removed :: Cut(source, maxLen, kept, removed) &&
                                t == kept + ("...(truncated:" + Decimal(|removed|) + ")"))
  }

  ghost predicate Cut(source: string, maxLen: nat, kept: string, removed: string) {
    source == kept + removed && |kept| == maxLen && removed != ""
  }

  lemma TruncatedIsShortened(value: string, maxLen: nat)
    requires maxLen > 0
    ensures Shortened(value, maxLen, TruncateString(value, maxLen))
  {
    hide Decimal;
    if |value| > maxLen {
      assert Cut(value, maxLen, value[..maxLen], value[maxLen..]);
    }
  }

  function TextOf(o: Obj): Option<string> {
    match o
    case Text(text) => Some(text)
    case Dumpable(_, repr) => Some(repr)
    case Opaque(_, repr) => Some(repr)
    case _ => None
  }

  /** The text is a constant of the sanitiser, or some text of the heap, shortened. */
  ghost predicate TextShown(cfg: Settings, heap: Heap, t: string) {
    || t == TOO_DEEP || t == REDACTED
    || exists id :: id in heap && TextOf(heap[id]).Some? && Shortened(TextOf(heap[id]).value, cfg.MaxFieldLen(), t)
  }

  /** The key is some key of the heap, shortened. */
  ghost predicate KeyShown(heap: Heap, k: string) {
    exists id, i :: id in heap && heap[id].Dict? && 0 <= i < |heap[id].items| &&
                    Shortened(heap[id].items[i].0, MAX_KEY, k)
  }

  /** The value counts the items beyond the limit of some dictionary, or is the notice with those of a collection. */
  ghost predicate Notice(cfg: Settings, heap: Heap, out: Out) {
    exists id :: id in heap &&
      match heap[id]
      case Dict(items) => |items| > cfg.MaxItems() && out == Count(|items| - cfg.MaxItems())
      case Collection(elements) => |elements| > cfg.MaxItems() && out == Str(Suffix(|elements| - cfg.MaxItems()))
      case _ => false
  }

  /**
   * At most `d` containers nest; none shows more than `maxItems` entries, besides a notice of how many are left
   * out; and all text and keys come from the heap, shortened.
   */
  ghost predicate Bounded(cfg: Settings, heap: Heap, out: Out, d: nat)
    decreases d
  {
    match out
    case Leaf(_) => true
    case Count(_) => false
    case Str(text) => TextShown(cfg, heap, text)
    case Obj(entries) =>
      && d > 0 && DictFits(cfg, heap, entries)
      && forall k | k in entries ::
           (KeyShown(heap, k) && Bounded(cfg, heap, entries[k], d - 1)) ||
           (k == TRUNCATED_ITEMS && CountShown(cfg, heap, entries))
    case List(elements) =>
      && d > 0 && ListFits(cfg, heap, elements)
      && forall i | 0 <= i < |elements| && i < cfg.MaxItems() :: Bounded(cfg, heap, elements[i], d - 1)
  }

  ghost predicate ListFits(cfg: Settings, heap: Heap, elements: seq<Out>) {
    var n := cfg.MaxItems();
    |elements| <= n || (|elements| == n + 1 && Notice(cfg, heap, elements[n]))
  }

  ghost predicate DictFits(cfg: Settings, heap: Heap, entries: map<string, Out>) {
    var n := cfg.MaxItems();
    |entries| <= n || (|entries - {TRUNCATED_ITEMS}| <= n && CountShown(cfg, heap, entries))
  }

  ghost predicate CountShown(cfg: Settings, heap: Heap, entries: map<string, Out>) {
    TRUNCATED_ITEMS in entries && entries[TRUNCATED_ITEMS].Count? && Notice(cfg, heap, entries[TRUNCATED_ITEMS])
  }

  lemma {:induction false} BoundedDeeper(cfg: Settings, heap: Heap, out: Out, d: nat)
    requires Bounded(cfg, heap, out, d)
    ensures Bounded(cfg, heap, out, d + 1)
    decreases d
  {
    hide TextShown, KeyShown, CountShown, ListFits, DictFits;
    match out
    case Obj(entries) =>
      forall k | k in entries && Bounded(cfg, heap, entries[k], d - 1) ensures Bounded(cfg, heap, entries[k], d) {
        BoundedDeeper(cfg, heap, entries[k], d - 1);
      }
    case List(elements) =>
      forall i | 0 <= i < |elements| && Bounded(cfg, heap, elements[i], d - 1)
        ensures Bounded(cfg, heap, elements[i], d)
      {
        BoundedDeeper(cfg, heap, elements[i], d - 1);
      }
    case _ =>
  }

  /** Whatever the heap, cyclic or not, the tree is bounded. */
  lemma {:induction false} SanitizedIsBounded(cfg: Settings, heap: Heap, id: Id, depth: nat)
    requires Closed(heap) && id in heap && depth <= MAX_DEPTH + 1
    ensures Bounded(cfg, heap, Sanitized(cfg, heap, id, depth), MAX_DEPTH + 1 - depth)
    decreases MAX_DEPTH + 1 - depth, 1
  {
    hide Shortened, TruncateString, Suffix, Entries, DictOf, IsSensitiveKey, ListFits, DictFits;
    if depth <= MAX_DEPTH {
      match heap[id]
      case Text(text) => TruncatedIsShortened(text, cfg.MaxFieldLen());
      case Dict(items) => DictIsBounded(cfg, heap, id, depth);
      case Collection(elements) =>
        forall i | 0 <= i < |elements|
          ensures elements[i] in heap &&
                  Bounded(cfg, heap, Sanitized(cfg, heap, elements[i], depth + 1), MAX_DEPTH - depth)
        {
          assert elements[i] == Children(heap[id])[i];
          SanitizedIsBounded(cfg, heap, elements[i], depth + 1);
        }
        CollectionFits(cfg, heap, id, depth);
      case Dumpable(Some(dump), _) =>
        assert dump == Children(heap[id])[0];
        SanitizedIsBounded(cfg, heap, dump, depth + 1);
        BoundedDeeper(cfg, heap, Sanitized(cfg, heap, dump, depth + 1), MAX_DEPTH - depth);
      case Dumpable(None, repr) => TruncatedIsShortened(repr, cfg.MaxFieldLen());
      case Opaque(_, repr) => TruncatedIsShortened(repr, cfg.MaxFieldLen());
      case Scalar(_) =>
    }
  }

  lemma CollectionFits(cfg: Settings, heap: Heap, id: Id, depth: nat)
    requires Closed(heap) && id in heap && heap[id].Collection? && depth <= MAX_DEPTH
    ensures var out := Sanitized(cfg, heap, id, depth); out.List? && ListFits(cfg, heap, out.elements)
  {
    hide Suffix;
  }

  lemma DictIsBounded(cfg: Settings, heap: Heap, id: Id, depth: nat)
    requires Closed(heap) && id in heap && heap[id].Dict? && depth <= MAX_DEPTH
    ensures Bounded(cfg, heap, Sanitized(cfg, heap, id, depth), MAX_DEPTH + 1 - depth)
    decreases MAX_DEPTH + 1 - depth, 0, |heap[id].items| + 1
  {
    hide KeyShown, IsSensitiveKey, Entries, Closed, Sanitized, Notice, CountShown, DictFits;
    var items, maxItems := heap[id].items, cfg.MaxItems();
    var n := if |items| < maxItems then |items| else maxItems;
    var entries := Entries(cfg, heap, id, depth, n);
    EntriesAreBounded(cfg, heap, id, depth, n);
    DictSanitized(cfg, heap, id, depth);
    if |items| > n {
      CountIsNotice(cfg, heap, id);
      CountFits(cfg, heap, entries, Count(|items| - n));
    } else {
      EntriesFit(cfg, heap, entries);
    }
  }

  lemma CountIsNotice(cfg: Settings, heap: Heap, id: Id)
    requires id in heap && heap[id].Dict? && |heap[id].items| > cfg.MaxItems()
    ensures Notice(cfg, heap, Count(|heap[id].items| - cfg.MaxItems()))
  {
  }

  lemma EntriesFit(cfg: Settings, heap: Heap, entries: map<string, Out>)
    requires |entries| <= cfg.MaxItems()
    ensures DictFits(cfg, heap, entries)
  {
  }

  lemma CountFits(cfg: Settings, heap: Heap, entries: map<string, Out>, count: Out)
    requires |entries| <= cfg.MaxItems() && count.Count? && Notice(cfg, heap, count)
    ensures var all := entries[TRUNCATED_ITEMS := count]; CountShown(cfg, heap, all) && DictFits(cfg, heap, all)
  {
    hide Notice;
    assert entries[TRUNCATED_ITEMS := count] - {TRUNCATED_ITEMS} == entries - {TRUNCATED_ITEMS};
    FewerEntries(entries, TRUNCATED_ITEMS);
  }

  lemma FewerEntries(entries: map<string, Out>, k: string)
    ensures |entries - {k}| <= |entries|
  {
    assert (entries - {k}).Keys == entries.Keys - {k};
    assert |entries.Keys - {k}| <= |entries.Keys|;
    assert |entries - {k}| == |(entries - {k}).Keys|;
  }

  lemma {:induction false} EntriesAreBounded(cfg: Settings, heap: Heap, id: Id, depth: nat, n: nat)
    requires Closed(heap) && id in heap && heap[id].Dict? && n <= |heap[id].items| && depth <= MAX_DEPTH
    ensures |Entries(cfg, heap, id, depth, n)| <= n
    ensures forall k | k in Entries(cfg, heap, id, depth, n) ::
              KeyShown(heap, k) && Bounded(cfg, heap, Entries(cfg, heap, id, depth, n)[k], MAX_DEPTH - depth)
    decreases MAX_DEPTH + 1 - depth, 0, n
  {
    hide KeyShown, TruncateString, IsSensitiveKey, Sanitized, Bounded, Closed;
    if n > 0 {
      EntriesAreBounded(cfg, heap, id, depth, n - 1);
      KeyIsShown(heap, id, n - 1);
      ChildInHeap(heap, id, n - 1);
      RedactedIsBounded(cfg, heap, MAX_DEPTH - depth);
      SanitizedIsBounded(cfg, heap, heap[id].items[n - 1].1, depth + 1);
    }
  }

  lemma KeyIsShown(heap: Heap, id: Id, i: nat)
    requires id in heap && heap[id].Dict? && i < |heap[id].items|
    ensures KeyShown(heap, KeyAt(heap, id, i))
  {
    hide Shortened;
    TruncatedIsShortened(heap[id].items[i].0, MAX_KEY);
  }

  lemma RedactedIsBounded(cfg: Settings, heap: Heap, d: nat)
    ensures Bounded(cfg, heap, Str(REDACTED), d)
  {
  }

  // ----- redaction

  /** The characters agree up to letter case and a hyphen for an underscore. */
  predicate SameLetter(c: char, m: char) {
    c == m || (c == '-' && m == '_') || ('A' <= c <= 'Z' && c as int + 32 == m as int)
  }

  ghost predicate MarkedAt(key: string, marker: string, at: int) {
    0 <= at <= |key| - |marker| && forall j | 0 <= j < |marker| :: SameLetter(key[at + j], marker[j])
  }

  ghost predicate Marked(key: string) { exists m, at :: 0 <= m < |MARKERS| && MarkedAt(key, MARKERS[m], at) }

  predicate Lowered(marker: string) { forall j | 0 <= j < |marker| :: 'a' <= marker[j] <= 'z' || marker[j] == '_' }

  lemma MarkersAreLowered(m: nat)
    requires m < |MARKERS|
    ensures Lowered(MARKERS[m])
  {
    if m < 5 {
      assert m == 0 || m == 1 || m == 2 || m == 3 || m == 4;
    } else if m < 10 {
      assert m == 5 || m == 6 || m == 7 || m == 8 || m == 9;
    } else {
      assert m == 10 || m == 11 || m == 12 || m == 13;
    }
  }

  lemma NormalisedAgrees(c: char, m: char)
    requires 'a' <= m <= 'z' || m == '_'
    ensures Normal(c) == m <==> SameLetter(c, m)
  {
  }

  lemma OccursIsMarked(key: string, marker: string, at: int)
    requires Lowered(marker)
    ensures Occurs(marker, Normalized(key), at) <==> MarkedAt(key, marker, at)
  {
    hide Normal, SameLetter;
    if 0 <= at <= |key| - |marker| {
      forall j | 0 <= j < |marker| ensures Normalized(key)[at + j] == marker[j] <==> SameLetter(key[at + j], marker[j]) {
        NormalisedAgrees(key[at + j], marker[j]);
      }
    }
  }

  /** A key is sensitive exactly when a marker occurs in it up to letter case and hyphens for underscores. */
  lemma SensitiveExactly(key: string)
    ensures IsSensitiveKey(key) <==> Marked(key)
  {
    hide MARKERS, Occurs, MarkedAt, Lowered, Normalized;
    forall m, at | 0 <= m < |MARKERS| ensures Occurs(MARKERS[m], Normalized(key), at) <==> MarkedAt(key, MARKERS[m], at) {
      MarkersAreLowered(m);
      OccursIsMarked(key, MARKERS[m], at);
    }
    forall m, at | 0 <= m < |MARKERS| && MarkedAt(key, MARKERS[m], at) ensures 0 <= at <= |key| {
      MarkIsInside(key, MARKERS[m], at);
    }
  }

  lemma MarkIsInside(key: string, marker: string, at: int)
    requires MarkedAt(key, marker, at)
    ensures 0 <= at <= |key|
  {
  }

  /** At every depth, a sensitive key maps to the redaction constant. */
  ghost predicate Redacted(out: Out) {
    match out
    case Obj(entries) =>
      forall k | k in entries :: (IsSensitiveKey(k) ==> entries[k] == Str(REDACTED)) && Redacted(entries[k])
    case List(elements) => forall i | 0 <= i < |elements| :: Redacted(elements[i])
    case _ => true
  }

  /** Position, in each marker, of a letter that no truncation suffix contains. */
  const TELLTALE: seq<nat> := [0, 0, 2, 3, 3, 3, 1, 7, 0, 2, 2, 0, 0, 2]

  predicate Telltale(c: char) { c in ['p', 's', 'k', 'h', 'f', 'g'] }

  lemma MarkerHasTelltale(m: nat)
    requires m < |MARKERS|
    ensures |TELLTALE| == |MARKERS| && TELLTALE[m] < |MARKERS[m]| && Telltale(MARKERS[m][TELLTALE[m]])
    ensures '.' !in MARKERS[m]
  {
    if m < 5 {
      assert m == 0 || m == 1 || m == 2 || m == 3 || m == 4;
    } else if m < 10 {
      assert m == 5 || m == 6 || m == 7 || m == 8 || m == 9;
    } else {
      assert m == 10 || m == 11 || m == 12 || m == 13;
    }
  }

  lemma SuffixHasNoTelltale(cut: nat)
    ensures Suffix(cut)[0] == '.' && forall c | c in Suffix(cut) :: !Telltale(Normal(c)) && Normal(c) == c
  {
    var head := "...(truncated:";
    assert Suffix(cut) == head + Decimal(cut) + ")";
    forall c | c in Suffix(cut) ensures !Telltale(Normal(c)) && Normal(c) == c {
      assert c in head || c in Decimal(cut) || c == ')';
    }
  }

  lemma OccurrenceHasTelltale(key: string, m: nat, at: int) returns (p: nat)
    requires m < |MARKERS| && Occurs(MARKERS[m], Normalized(key), at)
    ensures at <= p < at + |MARKERS[m]| && p < |key| && p == at + TELLTALE[m]
    ensures key[p] in key && Telltale(Normal(key[p])) && Normal(key[p]) == MARKERS[m][TELLTALE[m]]
  {
    MarkerHasTelltale(m);
    p := at + TELLTALE[m];
    assert Normalized(key)[p] == MARKERS[m][TELLTALE[m]];
  }

  lemma NoTelltaleNoMarker(key: string)
    requires forall c | c in key :: !Telltale(Normal(c))
    ensures !IsSensitiveKey(key)
  {
    forall m, at | 0 <= m < |MARKERS| && Occurs(MARKERS[m], Normalized(key), at) ensures false {
      var p := OccurrenceHasTelltale(key, m, at);
    }
  }

  /** Cutting a key neither makes a marker nor hides one that lies before the cut. */
  lemma TruncationAndMarkers(key: string, maxLen: nat)
    requires 0 < maxLen < |key|
    ensures IsSensitiveKey(TruncateString(key, maxLen)) <==> IsSensitiveKey(key[..maxLen])
  {
    var cut, shown := key[..maxLen], TruncateString(key, maxLen);
    var suffix := Suffix(|key| - maxLen);
    assert shown == cut + suffix;
    SuffixHasNoTelltale(|key| - maxLen);
    forall m, at | 0 <= m < |MARKERS| && Occurs(MARKERS[m], Normalized(shown), at)
      ensures Occurs(MARKERS[m], Normalized(cut), at)
    {
      OccursBeforeCut(cut, suffix, m, at);
    }
    forall m, at | 0 <= m < |MARKERS| && Occurs(MARKERS[m], Normalized(cut), at)
      ensures Occurs(MARKERS[m], Normalized(shown), at)
    {
      forall j | 0 <= j < |MARKERS[m]| ensures Normalized(shown)[at + j] == MARKERS[m][j] {
        assert Normalized(cut)[at + j] == MARKERS[m][j];
      }
    }
  }

  lemma OccursBeforeCut(cut: string, suffix: string, m: nat, at: int)
    requires m < |MARKERS| && Occurs(MARKERS[m], Normalized(cut + suffix), at)
    requires suffix != [] && suffix[0] == '.' && forall c | c in suffix :: !Telltale(Normal(c)) && Normal(c) == c
    ensures Occurs(MARKERS[m], Normalized(cut), at)
  {
    MarkerHasTelltale(m);
    var p := OccurrenceHasTelltale(cut + suffix, m, at);
    assert forall q | |cut| <= q < |cut + suffix| :: (cut + suffix)[q] in suffix;
    assert p < |cut|;
    assert (cut + suffix)[|cut|] == suffix[0];
    AvoidsDot(MARKERS[m], Normalized(cut + suffix), at, |cut|);
    assert Normalized(cut) == Normalized(cut + suffix)[..|cut|];
  }

  lemma AvoidsDot(pattern: string, s: string, at: int, dot: nat)
    requires Occurs(pattern, s, at) && '.' !in pattern
    requires dot < |s| && s[dot] == '.'
    ensures at + |pattern| <= dot || dot < at
    ensures at + |pattern| <= dot ==> Occurs(pattern, s[..dot], at)
  {
    hide Occurs;
    if at <= dot < at + |pattern| {
      OccurrenceChar(pattern, s, at, dot - at);
    } else {
      OccursEarlier(pattern, s, at, dot);
    }
  }

  lemma OccurrenceChar(pattern: string, s: string, at: int, j: nat)
    requires Occurs(pattern, s, at) && j < |pattern|
    ensures 0 <= at && at + j < |s| && s[at + j] in pattern
  {
    assert pattern[j] in pattern;
  }

  lemma OccursEarlier(pattern: string, s: string, at: int, end: nat)
    requires Occurs(pattern, s, at) && end <= |s|
    ensures at + |pattern| <= end ==> Occurs(pattern, s[..end], at)
  {
  }

  lemma CountKeyTelltale(p: nat)
    requires p < |TRUNCATED_ITEMS| && Telltale(Normal(TRUNCATED_ITEMS[p]))
    ensures p == 16 && Normal(TRUNCATED_ITEMS[p]) == 's'
  {
  }

  lemma MarkerWithS(m: nat)
    requires m < |MARKERS|
    ensures TELLTALE[m] < |MARKERS[m]| && (MARKERS[m][TELLTALE[m]] == 's' ==> |MARKERS[m]| == 6 && TELLTALE[m] == 0)
  {
    MarkerHasTelltale(m);
  }

  lemma CountKeyNotSensitive()
    ensures !IsSensitiveKey(TRUNCATED_ITEMS)
  {
    forall m, at | 0 <= m < |MARKERS| ensures !Occurs(MARKERS[m], Normalized(TRUNCATED_ITEMS), at) {
      if Occurs(MARKERS[m], Normalized(TRUNCATED_ITEMS), at) {
        var p := OccurrenceHasTelltale(TRUNCATED_ITEMS, m, at);
        MarkerWithS(m);
        CountKeyTelltale(p);
      }
    }
  }

  /** With redaction on, no sensitive key of the output, at any depth, keeps its value. */
  lemma {:induction false} SanitizedIsRedacted(cfg: Settings, heap: Heap, id: Id, depth: nat)
    requires Closed(heap) && id in heap && cfg.redact
    ensures Redacted(Sanitized(cfg, heap, id, depth))
    decreases MAX_DEPTH + 1 - depth, 1
  {
    hide TruncateString, Suffix, Entries, IsSensitiveKey;
    if depth <= MAX_DEPTH {
      match heap[id]
      case Dict(items) =>
        var n := if |items| < cfg.MaxItems() then |items| else cfg.MaxItems();
        EntriesAreRedacted(cfg, heap, id, depth, n);
        CountKeyNotSensitive();
      case Collection(elements) =>
        forall i | 0 <= i < |elements|
          ensures elements[i] in heap && Redacted(Sanitized(cfg, heap, elements[i], depth + 1))
        {
          assert elements[i] == Children(heap[id])[i];
          SanitizedIsRedacted(cfg, heap, elements[i], depth + 1);
        }
      case Dumpable(Some(dump), _) =>
        assert dump == Children(heap[id])[0];
        SanitizedIsRedacted(cfg, heap, dump, depth + 1);
      case _ =>
    }
  }

  lemma {:induction false} EntriesAreRedacted(cfg: Settings, heap: Heap, id: Id, depth: nat, n: nat)
    requires Closed(heap) && id in heap && heap[id].Dict? && n <= |heap[id].items| && depth <= MAX_DEPTH
    requires cfg.redact
    ensures var entries := Entries(cfg, heap, id, depth, n);
            forall k | k in entries :: (IsSensitiveKey(k) ==> entries[k] == Str(REDACTED)) && Redacted(entries[k])
    decreases MAX_DEPTH + 1 - depth, 0, n
  {
    hide TruncateString, IsSensitiveKey, Sanitized;
    if n > 0 {
      EntriesAreRedacted(cfg, heap, id, depth, n - 1);
      ChildInHeap(heap, id, n - 1);
      SanitizedIsRedacted(cfg, heap, heap[id].items[n - 1].1, depth + 1);
    }
  }

  /** The part of a raw key that decides its redaction. */
  function Decisive(key: string): string {
    if |key| <= MAX_KEY then key else key[..MAX_KEY]
  }

  /** A shown item loses its value exactly when a marker lies in the first 128 characters of its raw key. */
  lemma RawKeyDecides(cfg: Settings, heap: Heap, id: Id, depth: nat, i: nat)
    requires Closed(heap) && id in heap && heap[id].Dict? && i < |heap[id].items| && depth <= MAX_DEPTH
    ensures heap[id].items[i].1 in heap
    ensures var (raw, value) := heap[id].items[i];
            ValueAt(cfg, heap, id, depth, i) ==
            if cfg.redact && IsSensitiveKey(Decisive(raw)) then Str(REDACTED)
            else Sanitized(cfg, heap, value, depth + 1)
  {
    hide IsSensitiveKey, Sanitized;
    ChildInHeap(heap, id, i);
    var raw := heap[id].items[i].0;
    if |raw| > MAX_KEY {
      TruncationAndMarkers(raw, MAX_KEY);
    }
  }

  /** Under a key that several shown items share, the last of them is what the output holds. */
  lemma {:induction false} LastItemWins(cfg: Settings, heap: Heap, id: Id, depth: nat, n: nat, i: nat)
    requires Closed(heap) && id in heap && heap[id].Dict? && n <= |heap[id].items| && depth <= MAX_DEPTH
    requires i < n && forall j | i < j < n :: KeyAt(heap, id, j) != KeyAt(heap, id, i)
    ensures var entries := Entries(cfg, heap, id, depth, n); var k := KeyAt(heap, id, i);
            k in entries && entries[k] == ValueAt(cfg, heap, id, depth, i)
  {
    hide TruncateString, ValueAt;
    if i < n - 1 {
      LastItemWins(cfg, heap, id, depth, n - 1, i);
    }
  }

  /** A marker further along is not noticed. */
  lemma MarkerBeyondCut() returns (key: string)
    ensures IsSensitiveKey(key) && !IsSensitiveKey(Decisive(key)) && !IsSensitiveKey(TruncateString(key, MAX_KEY))
  {
    var filler := seq(MAX_KEY, _ => 'a');
    key := filler + "password";
    forall j | 0 <= j < |MARKERS[0]| ensures Normalized(key)[128 + j] == MARKERS[0][j] {
      assert key[128 + j] == "password"[j];
    }
    assert Occurs(MARKERS[0], Normalized(key), 128);
    assert Decisive(key) == filler;
    NoTelltaleNoMarker(filler);
    TruncationAndMarkers(key, MAX_KEY);
  }
}
