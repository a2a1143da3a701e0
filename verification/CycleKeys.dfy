// `canon_cycle`: one key for all rotations and reversals of a cycle.
module CycleKeys {
  import opened Ordering
  import opened Graphs

  function Rotation(c: seq<Node>, i: nat): (r: seq<Node>)
    requires i <= |c|
    ensures |r| == |c|
  {
    c[i..] + c[..i]
  }

  function Reverse(c: seq<Node>): (r: seq<Node>)
    ensures |r| == |c|
  {
    seq(|c|, k requires 0 <= k < |c| => c[|c| - 1 - k])
  }

  /** `d` is a rotation of `c`, or of `c` read backwards. */
  ghost predicate Similar(c: seq<Node>, d: seq<Node>) {
    exists i :: 0 <= i < |c| && (d == Rotation(c, i) || d == Rotation(Reverse(c), i))
  }

  lemma RotationTwice(c: seq<Node>, i: nat, j: nat)
    requires i < |c| && j < |c|
    ensures Rotation(Rotation(c, i), j) == Rotation(c, if i + j < |c| then i + j else i + j - |c|)
  {
  }

  lemma ReverseTwice(c: seq<Node>)
    ensures Reverse(Reverse(c)) == c
  {
  }

  lemma ReverseRotation(c: seq<Node>, i: nat)
    requires i < |c|
    ensures Reverse(Rotation(c, i)) == Rotation(Reverse(c), if i == 0 then 0 else |c| - i)
  {
  }

  lemma SimilarSelf(c: seq<Node>)
    requires c != []
    ensures Similar(c, c)
  {
    assert c == Rotation(c, 0);
  }

  lemma SimilarRotation(c: seq<Node>, i: nat)
    requires i < |c|
    ensures Similar(c, Rotation(c, i))
  {
  }

  lemma SimilarSymmetric(c: seq<Node>, d: seq<Node>)
    requires Similar(c, d)
    ensures Similar(d, c)
  {
    var i :| 0 <= i < |c| && (d == Rotation(c, i) || d == Rotation(Reverse(c), i));
    var back := if i == 0 then 0 else |c| - i;
    if d == Rotation(c, i) {
      RotationTwice(c, i, back);
      assert Rotation(d, back) == Rotation(c, 0) == c;
    } else {
      ReverseRotation(Reverse(c), i);
      ReverseTwice(c);
      assert Reverse(d) == Rotation(c, back);
      RotationTwice(c, back, i);
      assert Rotation(Reverse(d), i) == Rotation(c, 0) == c;
    }
  }

  lemma SimilarTransitive(c: seq<Node>, d: seq<Node>, e: seq<Node>)
    requires Similar(c, d) && Similar(d, e)
    ensures Similar(c, e)
  {
    hide Rotation, Reverse;
    var i :| 0 <= i < |c| && (d == Rotation(c, i) || d == Rotation(Reverse(c), i));
    var j :| 0 <= j < |d| && (e == Rotation(d, j) || e == Rotation(Reverse(d), j));
    var back := if i == 0 then 0 else |c| - i;
    var base := if d == Rotation(c, i) then c else Reverse(c);
    ReverseTwice(c);
    if e == Rotation(d, j) {
      RotationTwice(base, i, j);
    } else {
      ReverseRotation(base, i);
      RotationTwice(Reverse(base), back, j);
    }
  }

  // ----- the key

  ghost predicate IsKey(c: seq<Node>, key: seq<Node>) {
    Similar(c, key) && forall d | Similar(c, d) :: ChainLe(key, d)
  }

  lemma KeyExists(c: seq<Node>)
    requires c != []
    ensures exists key :: IsKey(c, key)
  {
    hide ChainLe;
    var variants := (set i | 0 <= i < |c| :: Rotation(c, i)) + (set i | 0 <= i < |c| :: Rotation(Reverse(c), i));
    forall d ensures d in variants <==> Similar(c, d) {
    }
    SimilarSelf(c);
    ChainOrder();
    LeastExists(ChainLe, variants);
    var key :| key in variants && forall d | d in variants :: ChainLe(key, d);
    assert IsKey(c, key);
  }

  ghost function Key(c: seq<Node>): (key: seq<Node>)
    requires c != []
    ensures IsKey(c, key)
  {
    KeyExists(c);
    var key :| IsKey(c, key);
    key
  }

  lemma KeyUnique(c: seq<Node>, k: seq<Node>, m: seq<Node>)
    requires IsKey(c, k) && IsKey(c, m)
    ensures k == m
  {
    hide ChainLe;
    ChainOrder();
    assert ChainLe(k, m) && ChainLe(m, k);
  }

  /** Two cycles get the same key exactly when one is a rotation of the other or of its reversal. */
  lemma SameKey(c: seq<Node>, d: seq<Node>)
    requires c != [] && d != []
    ensures Key(c) == Key(d) <==> Similar(c, d)
  {
    hide ChainLe, Similar;
    if Key(c) == Key(d) {
      SimilarSymmetric(d, Key(d));
      SimilarTransitive(c, Key(c), d);
    }
    if Similar(c, d) {
      SimilarSymmetric(c, d);
      SimilarTransitive(d, c, Key(c));
      forall e | Similar(d, e) ensures ChainLe(Key(c), e) {
        SimilarTransitive(c, d, e);
      }
      KeyUnique(d, Key(c), Key(d));
    }
  }

  method CanonCycle(nodes: seq<Node>) returns (key: seq<Node>)
    requires nodes != []
    ensures key == Key(nodes)
  {
    hide ChainLe, IsKey;
    var rotations: seq<seq<Node>> := [];
    var readings := [nodes, Reverse(nodes)];
    for r := 0 to 2
      invariant r > 0 ==> |rotations| > 0
      invariant forall d | d in rotations :: Similar(nodes, d)
      invariant forall q, i | 0 <= q < r && 0 <= i < |nodes| :: Rotation(readings[q], i) in rotations
    {
      var reading := readings[r];
      for i := 0 to |reading|
        invariant (r > 0 || i > 0) ==> |rotations| > 0
        invariant forall d | d in rotations :: Similar(nodes, d)
        invariant forall q, k | 0 <= q < r && 0 <= k < |nodes| :: Rotation(readings[q], k) in rotations
        invariant forall k | 0 <= k < i :: Rotation(reading, k) in rotations
      {
        assert Similar(nodes, Rotation(reading, i));
        rotations := rotations + [Rotation(reading, i)];
      }
    }
    ChainOrder();
    key := Least(ChainLe, rotations);
    forall d | Similar(nodes, d) ensures ChainLe(key, d) {
      assert Rotation(readings[0], 0) in rotations;
      var i :| 0 <= i < |nodes| && (d == Rotation(nodes, i) || d == Rotation(Reverse(nodes), i));
      assert Rotation(readings[0], i) in rotations && Rotation(readings[1], i) in rotations;
    }
    LeastIsKey(nodes, key);
  }

  lemma LeastIsKey(c: seq<Node>, key: seq<Node>)
    requires c != []
    requires Similar(c, key) && forall d | Similar(c, d) :: ChainLe(key, d)
    ensures key == Key(c)
  {
    KeyUnique(c, key, Key(c));
  }

  // ----- rotating a cycle

  /** Where the `k`th node of the rotation by `i` stands before it. */
  function Turned(n: nat, i: nat, k: nat): nat
    requires i < n && k < n
  {
    if k + i < n then k + i else k + i - n
  }

  lemma RotationAt(c: seq<Node>, i: nat, k: nat)
    requires i < |c| && k < |c|
    ensures Rotation(c, i)[k] == c[Turned(|c|, i, k)]
  {
  }

  lemma CycleEdge(g: Graph, c: seq<Node>, k: nat)
    requires ElementaryCycle(g, c) && k < |c|
    ensures Edge(g, c[k], c[if k + 1 < |c| then k + 1 else 0])
  {
    hide Distinct, Edge;
  }

  /** A rotation of a cycle goes through the same edges. */
  lemma RotationEdge(g: Graph, c: seq<Node>, i: nat, k: nat)
    requires ElementaryCycle(g, c) && i < |c| && k < |c|
    ensures var d := Rotation(c, i); Edge(g, d[k], d[if k + 1 < |d| then k + 1 else 0])
  {
    hide Rotation, ElementaryCycle, Edge;
    RotationAt(c, i, k);
    RotationAt(c, i, if k + 1 < |c| then k + 1 else 0);
    CycleEdge(g, c, Turned(|c|, i, k));
  }

  lemma RotationNodes(c: seq<Node>, i: nat)
    requires i < |c|
    ensures forall x :: x in Rotation(c, i) <==> x in c
    ensures Distinct(c) ==> Distinct(Rotation(c, i))
  {
    assert c == c[..i] + c[i..];
    if Distinct(c) {
      forall j, k | 0 <= j < k < |c| ensures Rotation(c, i)[j] != Rotation(c, i)[k] {
        RotationAt(c, i, j);
        RotationAt(c, i, k);
      }
    }
  }

  lemma RotationIsCycle(g: Graph, c: seq<Node>, i: nat)
    requires ElementaryCycle(g, c) && i < |c|
    ensures ElementaryCycle(g, Rotation(c, i))
    ensures forall x :: x in Rotation(c, i) <==> x in c
  {
    hide Rotation, Distinct;
    var d := Rotation(c, i);
    RotationNodes(c, i);
    forall k | 0 <= k < |d| ensures d[k] in g && Edge(g, d[k], d[if k + 1 < |d| then k + 1 else 0]) {
      RotationEdge(g, c, i, k);
    }
  }
}
