// The orders behind Python's `sorted` and `min` on strings and on lists of strings.
module Ordering {

  ghost predicate TotalOrder<T(!new)>(le: (T, T) -> bool) {
    && (forall a, b :: le(a, b) || le(b, a))
    && (forall a, b :: le(a, b) && le(b, a) ==> a == b)
    && (forall a, b, c :: le(a, b) && le(b, c) ==> le(a, c))
  }

  /** Sequence comparison as Python does it: the first difference decides, a proper prefix is smaller. */
  predicate LexLe<T(==)>(le: (T, T) -> bool, a: seq<T>, b: seq<T>) {
    a == [] || (b != [] && if a[0] == b[0] then LexLe(le, a[1..], b[1..]) else le(a[0], b[0]))
  }

  lemma {:induction false} LexTotality<T(!new)>(le: (T, T) -> bool, a: seq<T>, b: seq<T>)
    requires TotalOrder(le)
    ensures LexLe(le, a, b) || LexLe(le, b, a)
  {
    if a != [] && b != [] && a[0] == b[0] {
      LexTotality(le, a[1..], b[1..]);
    }
  }

  lemma {:induction false} LexAntisymmetry<T(!new)>(le: (T, T) -> bool, a: seq<T>, b: seq<T>)
    requires TotalOrder(le)
    requires LexLe(le, a, b) && LexLe(le, b, a)
    ensures a == b
  {
    if a != [] && b != [] {
      assert a[0] == b[0];
      LexAntisymmetry(le, a[1..], b[1..]);
      assert a == [a[0]] + a[1..] && b == [b[0]] + b[1..];
    }
  }

  lemma {:induction false} LexTransitivity<T(!new)>(le: (T, T) -> bool, a: seq<T>, b: seq<T>, c: seq<T>)
    requires TotalOrder(le)
    requires LexLe(le, a, b) && LexLe(le, b, c)
    ensures LexLe(le, a, c)
  {
    if a != [] && b != [] && c != [] && a[0] == b[0] && b[0] == c[0] {
      LexTransitivity(le, a[1..], b[1..], c[1..]);
    }
  }

  predicate CharLe(a: char, b: char) { a <= b }

  predicate StringLe(a: string, b: string) { LexLe(CharLe, a, b) }

  /** Order of Python tuples (or lists) of strings. */
  predicate ChainLe(a: seq<string>, b: seq<string>) { LexLe(StringLe, a, b) }

  /** Order of the key `(len(c), c)`. */
  predicate BySizeLe(a: seq<string>, b: seq<string>) {
    |a| < |b| || (|a| == |b| && ChainLe(a, b))
  }

  lemma StringOrder()
    ensures TotalOrder(StringLe)
  {
    assert TotalOrder(CharLe);
    forall a, b ensures StringLe(a, b) || StringLe(b, a) { LexTotality(CharLe, a, b); }
    forall a, b | StringLe(a, b) && StringLe(b, a) ensures a == b { LexAntisymmetry(CharLe, a, b); }
    forall a, b, c | StringLe(a, b) && StringLe(b, c) ensures StringLe(a, c) { LexTransitivity(CharLe, a, b, c); }
  }

  /** One string is at most another when it begins it, or is smaller at the first place where they differ. */
  lemma {:induction false} StringLeExactly(a: string, b: string)
    ensures StringLe(a, b) <==> a <= b || exists i :: DifferFirstAt(a, b, i) && a[i] < b[i]
  {
    if a != [] && b != [] {
      StringLeExactly(a[1..], b[1..]);
      if a[0] == b[0] {
        assert a <= b <==> a[1..] <= b[1..];
        if i :| DifferFirstAt(a[1..], b[1..], i) && a[1..][i] < b[1..][i] {
          assert DifferFirstAt(a, b, i + 1);
        }
        if i :| DifferFirstAt(a, b, i) && a[i] < b[i] {
          assert DifferFirstAt(a[1..], b[1..], i - 1);
        }
      } else {
        assert DifferFirstAt(a, b, 0);
        assert forall i | DifferFirstAt(a, b, i) :: i == 0;
      }
    }
  }

  ghost predicate DifferFirstAt(a: string, b: string, i: int) {
    0 <= i < |a| && i < |b| && a[i] != b[i] && forall j | 0 <= j < i :: a[j] == b[j]
  }

  lemma ChainOrder()
    ensures TotalOrder(ChainLe)
  {
    StringOrder();
    forall a, b ensures ChainLe(a, b) || ChainLe(b, a) { LexTotality(StringLe, a, b); }
    forall a, b | ChainLe(a, b) && ChainLe(b, a) ensures a == b { LexAntisymmetry(StringLe, a, b); }
    forall a, b, c | ChainLe(a, b) && ChainLe(b, c) ensures ChainLe(a, c) { LexTransitivity(StringLe, a, b, c); }
  }

  lemma BySizeOrder()
    ensures TotalOrder(BySizeLe)
  {
    ChainOrder();
  }

  ghost predicate SortedBy<T>(le: (T, T) -> bool, xs: seq<T>) {
    forall i, j | 0 <= i < j < |xs| :: le(xs[i], xs[j])
  }

  ghost predicate Distinct<T>(xs: seq<T>) {
    forall i, j | 0 <= i < j < |xs| :: xs[i] != xs[j]
  }

  /** What sorting a set yields. */
  ghost predicate Ascending(xs: seq<string>) { Distinct(xs) && SortedBy(StringLe, xs) }

  function Elements<T>(xs: seq<T>): set<T> {
    set x | x in xs
  }

  /** Python's `sorted` on a list: ordered, and the same items with the same multiplicities. */
  function Sorted<T(!new)>(le: (T, T) -> bool, xs: seq<T>): (ys: seq<T>)
    requires TotalOrder(le)
    ensures SortedBy(le, ys)
    ensures multiset(ys) == multiset(xs)
  {
    if xs == [] then []
    else
      assert xs == [xs[0]] + xs[1..];
      Insert(le, xs[0], Sorted(le, xs[1..]))
  }

  function Insert<T(!new)>(le: (T, T) -> bool, x: T, ys: seq<T>): (zs: seq<T>)
    requires TotalOrder(le)
    requires SortedBy(le, ys)
    ensures SortedBy(le, zs)
    ensures forall z | z in zs :: z == x || z in ys
    ensures multiset(zs) == multiset{x} + multiset(ys)
  {
    if ys == [] then [x]
    else if le(x, ys[0]) then
      SortedHead(le, ys);
      SortedCons(le, x, ys);
      [x] + ys
    else
      TailSorted(le, ys);
      var rest := Insert(le, x, ys[1..]);
      SortedHead(le, ys);
      SortedCons(le, ys[0], rest);
      assert ys == [ys[0]] + ys[1..];
      [ys[0]] + rest
  }

  lemma SortedHead<T(!new)>(le: (T, T) -> bool, xs: seq<T>)
    requires TotalOrder(le) && SortedBy(le, xs) && xs != []
    ensures forall x | x in xs :: le(xs[0], x)
  {
  }

  lemma TailSorted<T>(le: (T, T) -> bool, xs: seq<T>)
    requires SortedBy(le, xs) && xs != []
    ensures SortedBy(le, xs[1..])
  {
  }

  lemma SortedCons<T(!new)>(le: (T, T) -> bool, x: T, xs: seq<T>)
    requires SortedBy(le, xs) && forall y | y in xs :: le(x, y)
    ensures SortedBy(le, [x] + xs)
  {
  }

  lemma SameItems<T(!new)>(xs: seq<T>, ys: seq<T>)
    requires multiset(xs) == multiset(ys)
    ensures |xs| == |ys|
    ensures forall x :: x in xs <==> x in ys
  {
    assert |multiset(xs)| == |xs| && |multiset(ys)| == |ys|;
    forall x ensures x in xs <==> x in ys {
      assert x in multiset(xs) <==> x in multiset(ys);
    }
  }

  /** Python's `sorted` on a set of strings. */
  method SortedElements(s: set<string>) returns (xs: seq<string>)
    ensures Elements(xs) == s && Distinct(xs) && |xs| == |s|
    ensures SortedBy(StringLe, xs)
  {
    StringOrder();
    xs := [];
    var todo := s;
    while todo != {}
      invariant todo <= s
      invariant forall z :: z in xs <==> z in s && z !in todo
      invariant Distinct(xs) && SortedBy(StringLe, xs) && |xs| + |todo| == |s|
      invariant forall x, y | x in xs && y in todo :: StringLe(x, y)
      decreases todo
    {
      LeastExists(StringLe, todo);
      var x :| x in todo && forall y | y in todo :: StringLe(x, y);
      xs := xs + [x];
      todo := todo - {x};
    }
  }

  lemma {:induction false} LeastExists<T(!new)>(le: (T, T) -> bool, s: set<T>)
    requires TotalOrder(le)
    requires s != {}
    ensures exists x :: x in s && forall y | y in s :: le(x, y)
  {
    var x :| x in s;
    var rest := s - {x};
    if rest == {} {
      assert s == {x};
      assert le(x, x);
    } else {
      LeastExists(le, rest);
      var m :| m in rest && forall y | y in rest :: le(m, y);
      var least := if le(x, m) then x else m;
      assert least in s && forall y | y in s :: y == x || y in rest;
    }
  }

  /** Python's `min`. */
  function Least<T(!new)>(le: (T, T) -> bool, xs: seq<T>): (x: T)
    requires TotalOrder(le) && xs != []
    ensures x in xs && forall y | y in xs :: le(x, y)
  {
    if |xs| == 1 then
      assert le(xs[0], xs[0]);
      xs[0]
    else
      var m := Least(le, xs[1..]);
      assert forall y | y in xs :: y == xs[0] || y in xs[1..];
      if le(xs[0], m) then xs[0] else m
  }

  lemma {:induction false} DistinctCount<T>(xs: seq<T>)
    ensures |Elements(xs)| <= |xs|
    ensures Distinct(xs) <==> |Elements(xs)| == |xs|
  {
    if xs != [] {
      var x, rest := xs[0], xs[1..];
      DistinctCount(rest);
      if x in rest {
        var i :| 0 <= i < |rest| && rest[i] == x;
        assert xs[i + 1] == xs[0];
        assert Elements(xs) == Elements(rest);
      } else {
        assert Elements(xs) == Elements(rest) + {x};
        if Distinct(rest) {
          assert Distinct(xs);
        } else {
          var i, j :| 0 <= i < j < |rest| && rest[i] == rest[j];
          assert xs[i + 1] == xs[j + 1];
        }
      }
    }
  }

  lemma DistinctPermutation<T(!new)>(xs: seq<T>, ys: seq<T>)
    requires multiset(xs) == multiset(ys) && Distinct(xs)
    ensures Distinct(ys)
  {
    SameItems(xs, ys);
    DistinctCount(xs);
    DistinctCount(ys);
    assert Elements(xs) == Elements(ys);
  }

  /** A sorted sequence is determined by its items and how often each occurs. */
  lemma {:induction false} SortedUnique(xs: seq<string>, ys: seq<string>)
    requires SortedBy(StringLe, xs) && SortedBy(StringLe, ys) && multiset(xs) == multiset(ys)
    ensures xs == ys
  {
    hide StringLe, SortedBy;
    SameItems(xs, ys);
    if xs != [] {
      assert xs[0] in ys && ys[0] in xs;
      SameFirst(xs, ys);
      TailSorted(StringLe, xs);
      TailSorted(StringLe, ys);
      assert xs == [xs[0]] + xs[1..] && ys == [ys[0]] + ys[1..];
      assert multiset(xs[1..]) == multiset(xs) - multiset{xs[0]};
      assert multiset(ys[1..]) == multiset(ys) - multiset{ys[0]};
      SortedUnique(xs[1..], ys[1..]);
    }
  }

  lemma SameFirst(xs: seq<string>, ys: seq<string>)
    requires xs != [] && ys != [] && SortedBy(StringLe, xs) && SortedBy(StringLe, ys)
    requires xs[0] in ys && ys[0] in xs
    ensures xs[0] == ys[0]
  {
    hide StringLe, TotalOrder;
    if xs[0] != ys[0] {
      var i :| 0 <= i < |xs| && xs[i] == ys[0];
      var j :| 0 <= j < |ys| && ys[j] == xs[0];
      StringAntisymmetric(xs[0], ys[0]);
    }
  }

  lemma StringAntisymmetric(a: string, b: string)
    requires StringLe(a, b) && StringLe(b, a)
    ensures a == b
  {
    StringOrder();
  }

  lemma {:induction false} DistinctMultiset(xs: seq<string>, x: string)
    requires Distinct(xs)
    ensures multiset(xs)[x] == if x in xs then 1 else 0
  {
    if xs != [] {
      assert xs == [xs[0]] + xs[1..];
      DistinctMultiset(xs[1..], x);
    }
  }

  /** Without repetitions, it is determined by its set of items. */
  lemma AscendingUnique(xs: seq<string>, ys: seq<string>)
    requires Ascending(xs) && Ascending(ys) && forall x :: x in xs <==> x in ys
    ensures xs == ys
  {
    hide StringLe;
    forall x ensures multiset(xs)[x] == multiset(ys)[x] {
      DistinctMultiset(xs, x);
      DistinctMultiset(ys, x);
    }
    assert multiset(xs) == multiset(ys);
    SortedUnique(xs, ys);
  }

  lemma SubsetSize<T>(a: set<T>, b: set<T>)
    requires a <= b
    ensures |a| <= |b|
  {
    assert b == a + (b - a);
  }
}
