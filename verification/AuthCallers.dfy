// The callers of the token cache in `get_user_from_token`: after a miss a caller validates the token without
// the lock and stores the result in a second step, so other callers can act between the two.
module AuthCallers {
  import opened Options
  import opened AuthCache

  type Caller = nat

  datatype Act =
    | Probe(token: string, ttl: int, now: real)
    | Validate(caller: Caller, token: string, validated: Validated)
    | Commit(caller: Caller, ttl: int, now: real)
    | Forget(token: string)
    | Logout(userId: int)

  /** What each caller has validated and not stored yet. */
  function Pending(acts: seq<Act>): map<Caller, (string, Validated)> {
    if acts == [] then map[]
    else
      var before := Pending(acts[..|acts| - 1]);
      match acts[|acts| - 1]
      case Validate(caller, token, validated) => before[caller := (token, validated)]
      case Commit(caller, _, _) => before - {caller}
      case _ => before
  }

  /** An operation that leaves the cache alone. */
  const IDLE := InvalidateToken(None)

  /** What the act does to the cache, given what came before it. */
  function OpOf(before: seq<Act>, act: Act): Op {
    match act
    case Probe(token, ttl, now) => Get(token, ttl, now)
    case Validate(_, _, _) => IDLE
    case Commit(caller, ttl, now) =>
      var pending := Pending(before);
      if caller in pending then Store(pending[caller].0, pending[caller].1, ttl, now) else IDLE
    case Forget(token) => InvalidateToken(Some(token))
    case Logout(userId) => InvalidateUser(userId)
  }

  function OpsOf(acts: seq<Act>): (ops: seq<Op>)
    ensures |ops| == |acts|
  {
    seq(|acts|, k requires 0 <= k < |acts| => OpOf(acts[..k], acts[k]))
  }

  predicate MovesCaller(act: Act, caller: Caller) {
    (act.Validate? || act.Commit?) && act.caller == caller
  }

  /** The caller's last move among the acts. */
  ghost predicate LastMove(acts: seq<Act>, d: int, caller: Caller) {
    0 <= d < |acts| && MovesCaller(acts[d], caller) && forall k | d < k < |acts| :: !MovesCaller(acts[k], caller)
  }

  lemma {:induction false} PendingExactly(acts: seq<Act>, caller: Caller, token: string, v: Validated)
    ensures (caller in Pending(acts) && Pending(acts)[caller] == (token, v)) <==>
            exists d :: LastMove(acts, d, caller) && acts[d] == Validate(caller, token, v)
  {
    if acts != [] {
      var n := |acts| - 1;
      var before := acts[..n];
      PendingExactly(before, caller, token, v);
      if MovesCaller(acts[n], caller) {
        assert LastMove(acts, n, caller);
      } else {
        forall d | 0 <= d < n ensures LastMove(acts, d, caller) <==> LastMove(before, d, caller) {
        }
      }
    }
  }

  /** The act at `k` ends the life of what was stored for the token to expire at `expiresAt`. */
  ghost predicate EndsAt(acts: seq<Act>, k: nat, token: string, v: Validated, expiresAt: real)
    requires k < |acts|
  {
    match acts[k]
    case Probe(_, ttl, now) => ttl > 0 && expiresAt <= now
    case Validate(_, _, _) => false
    case Commit(caller, ttl, now) =>
      ttl > 0 && exists d :: LastMove(acts[..k], d, caller) && acts[d].Validate? && (acts[d].token == token || expiresAt <= now)
    case Forget(t) => t == token && token != ""
    case Logout(u) => u == v.userId
  }

  lemma {:induction false} MoverIsLast(acts: seq<Act>, caller: Caller)
    ensures caller in Pending(acts) <==> exists d :: LastMove(acts, d, caller) && acts[d].Validate?
    ensures forall d | LastMove(acts, d, caller) && acts[d].Validate? ::
              caller in Pending(acts) && Pending(acts)[caller] == (acts[d].token, acts[d].validated)
  {
    hide Pending;
    forall d | LastMove(acts, d, caller) && acts[d].Validate?
      ensures caller in Pending(acts) && Pending(acts)[caller] == (acts[d].token, acts[d].validated)
    {
      PendingExactly(acts, caller, acts[d].token, acts[d].validated);
    }
    if caller in Pending(acts) {
      PendingExactly(acts, caller, Pending(acts)[caller].0, Pending(acts)[caller].1);
    }
  }

  lemma EndsAgree(acts: seq<Act>, k: nat, token: string, v: Validated, expiresAt: real)
    requires k < |acts|
    ensures Ends(OpsOf(acts)[k], token, Cached(expiresAt, v)) <==> EndsAt(acts, k, token, v, expiresAt)
  {
    hide Pending, MovesCaller;
    assert OpsOf(acts)[k] == OpOf(acts[..k], acts[k]);
    if acts[k].Commit? {
      MoverIsLast(acts[..k], acts[k].caller);
      assert forall d | LastMove(acts[..k], d, acts[k].caller) :: acts[..k][d] == acts[d];
    }
  }

  /** The commit stores what it validated for the token, it outlasts the clock, and nothing since has ended it. */
  ghost predicate LiveCommit(acts: seq<Act>, c: int, token: string, v: Validated, now: real) {
    && 0 <= c < |acts| && acts[c].Commit? && acts[c].ttl > 0
    && var expiresAt := acts[c].now + acts[c].ttl as real;
       expiresAt > now && forall k | c < k < |acts| :: !EndsAt(acts, k, token, v, expiresAt)
  }

  /** The commit at `c` stores the validation made at `d`. */
  ghost predicate Carries(acts: seq<Act>, d: int, c: int, token: string, v: Validated) {
    && 0 <= c < |acts| && acts[c].Commit?
    && LastMove(acts[..c], d, acts[c].caller) && acts[d] == Validate(acts[c].caller, token, v)
  }

  lemma CommitIssues(acts: seq<Act>, c: nat, token: string, cached: Cached)
    requires c < |acts|
    ensures Issues(OpsOf(acts)[c], token, cached) <==>
            && acts[c].Commit? && acts[c].ttl > 0 && cached.expiresAt == acts[c].now + acts[c].ttl as real
            && exists d :: Carries(acts, d, c, token, cached.validated)
  {
    hide Pending, MovesCaller;
    assert OpsOf(acts)[c] == OpOf(acts[..c], acts[c]);
    if acts[c].Commit? {
      var caller, v := acts[c].caller, cached.validated;
      PendingExactly(acts[..c], caller, token, v);
      forall d
        ensures Carries(acts, d, c, token, v) <==>
                LastMove(acts[..c], d, caller) && acts[..c][d] == Validate(caller, token, v)
      {
      }
    }
  }

  /** A lookup hits exactly on the validation that a live commit carried into the cache. */
  lemma HitIsCarried(digest: string -> Key, acts: seq<Act>, token: string, ttl: int, now: real, v: Validated)
    requires Injective(digest)
    ensures Lookup(digest, Run(digest, OpsOf(acts)), token, ttl, now) == Some(v) <==>
            ttl > 0 && exists d, c :: Carries(acts, d, c, token, v) && LiveCommit(acts, c, token, v, now)
  {
    hide Issues, Ends, EndsAt, Carries, Lookup, Run, Injective, OpsOf;
    var ops := OpsOf(acts);
    HitMeansLiveStore(digest, ops, token, ttl, now, v);
    forall c, cached: Cached | 0 <= c < |acts| && cached.validated == v
      ensures LiveStore(ops, c, token, cached) && cached.expiresAt > now <==>
              && LiveCommit(acts, c, token, v, now) && cached.expiresAt == acts[c].now + acts[c].ttl as real
              && exists d :: Carries(acts, d, c, token, v)
    {
      CommitIssues(acts, c, token, cached);
      forall k | c < k < |acts|
        ensures Ends(ops[k], token, cached) <==> EndsAt(acts, k, token, v, cached.expiresAt)
      {
        EndsAgree(acts, k, token, v, cached.expiresAt);
      }
    }
    forall d, c | Carries(acts, d, c, token, v) && LiveCommit(acts, c, token, v, now)
      ensures exists k, cached :: LiveStore(ops, k, token, cached) && cached.expiresAt > now && cached.validated == v
    {
      assert LiveStore(ops, c, token, Cached(acts[c].now + acts[c].ttl as real, v));
    }
  }

  /** A hit that a validation made before the logout at `j` answers. */
  ghost predicate StaleHit(acts: seq<Act>, j: nat, token: string, now: real, v: Validated) {
    exists d, c :: Carries(acts, d, c, token, v) && LiveCommit(acts, c, token, v, now) && d < j
  }

  /** The caller had this pending at the logout, and its next move is the commit at `c`. */
  ghost predicate HeldAcross(acts: seq<Act>, j: nat, c: int, token: string, v: Validated)
    requires j < |acts|
  {
    && j < c < |acts| && acts[c].Commit?
    && acts[c].caller in Pending(acts[..j]) && Pending(acts[..j])[acts[c].caller] == (token, v)
    && forall k | j < k < c :: !MovesCaller(acts[k], acts[c].caller)
  }

  /**
   * After a logout, a hit for the user comes from a commit made since; its validation is older than the logout
   * exactly when the committing caller held it at the logout and went on to commit it.
   */
  lemma StaleHitExactly(digest: string -> Key, acts: seq<Act>, j: nat, token: string, ttl: int, now: real, v: Validated)
    requires Injective(digest) && ttl > 0
    requires j < |acts| && acts[j] == Logout(v.userId)
    ensures StaleHit(acts, j, token, now, v) <==>
            && Lookup(digest, Run(digest, OpsOf(acts)), token, ttl, now) == Some(v)
            && exists c :: HeldAcross(acts, j, c, token, v) && LiveCommit(acts, c, token, v, now)
  {
    hide Lookup, Run, Injective, EndsAt, LastMove, HeldAcross;
    HitIsCarried(digest, acts, token, ttl, now, v);
    forall d, c | Carries(acts, d, c, token, v) && LiveCommit(acts, c, token, v, now)
      ensures j < c && (d < j ==> HeldAcross(acts, j, c, token, v))
    {
      CommitFollowsLogout(acts, j, c, token, now, v);
      if d < j {
        CarriedIsHeld(acts, j, d, c, token, v);
      }
    }
    forall c | HeldAcross(acts, j, c, token, v) && LiveCommit(acts, c, token, v, now) ensures StaleHit(acts, j, token, now, v) {
      var d := HeldIsCarried(acts, j, c, token, v);
    }
  }

  lemma CommitFollowsLogout(acts: seq<Act>, j: nat, c: nat, token: string, now: real, v: Validated)
    requires j < |acts| && acts[j] == Logout(v.userId) && LiveCommit(acts, c, token, v, now)
    ensures j < c
  {
    assert c < j ==> !EndsAt(acts, j, token, v, acts[c].now + acts[c].ttl as real);
  }

  lemma CarriedIsHeld(acts: seq<Act>, j: nat, d: int, c: nat, token: string, v: Validated)
    requires Carries(acts, d, c, token, v) && d < j < c && j < |acts|
    ensures HeldAcross(acts, j, c, token, v)
  {
    hide Pending;
    var caller := acts[c].caller;
    assert LastMove(acts[..c], d, caller);
    assert forall k | d < k < c :: acts[..c][k] == acts[k];
    assert LastMove(acts[..j], d, caller);
    PendingExactly(acts[..j], caller, token, v);
  }

  lemma HeldIsCarried(acts: seq<Act>, j: nat, c: nat, token: string, v: Validated) returns (d: nat)
    requires j < |acts| && acts[j].Logout? && HeldAcross(acts, j, c, token, v)
    ensures Carries(acts, d, c, token, v) && d < j
  {
    hide Pending;
    var caller := acts[c].caller;
    PendingExactly(acts[..j], caller, token, v);
    d :| LastMove(acts[..j], d, caller) && acts[..j][d] == Validate(caller, token, v);
    forall k | d < k < c ensures !MovesCaller(acts[..c][k], caller) {
      if k < j {
        assert acts[..j][k] == acts[k];
      }
    }
  }

  /** When no caller holds a validation of the user at the logout, a later hit for the user was validated since. */
  lemma FreshAfterLogout(digest: string -> Key, acts: seq<Act>, j: nat, token: string, ttl: int, now: real, v: Validated)
    requires Injective(digest)
    requires j < |acts| && acts[j] == Logout(v.userId)
    requires forall caller | caller in Pending(acts[..j]) :: Pending(acts[..j])[caller].1.userId != v.userId
    requires Lookup(digest, Run(digest, OpsOf(acts)), token, ttl, now) == Some(v)
    ensures exists d :: j < d < |acts| && acts[d].Validate? && acts[d].token == token && acts[d].validated == v
  {
    hide Run, Injective, Pending, OpsOf;
    HitIsCarried(digest, acts, token, ttl, now, v);
    StaleHitExactly(digest, acts, j, token, ttl, now, v);
    var d, c :| Carries(acts, d, c, token, v) && LiveCommit(acts, c, token, v, now);
    assert !(d < j);
  }

  /** A miss, a validation, a logout by another caller, and then the store: the token is hit after the logout. */
  lemma StaleHitWitness(digest: string -> Key, v: Validated)
    requires Injective(digest)
    ensures var acts := [Probe("t", 10, 0.0), Validate(0, "t", v), Logout(v.userId), Commit(0, 10, 0.0)];
            StaleHit(acts, 2, "t", 5.0, v) && Lookup(digest, Run(digest, OpsOf(acts)), "t", 10, 5.0) == Some(v)
  {
    hide Lookup, Run, Injective;
    var acts := [Probe("t", 10, 0.0), Validate(0, "t", v), Logout(v.userId), Commit(0, 10, 0.0)];
    assert LastMove(acts[..3], 1, 0);
    assert Carries(acts, 1, 3, "t", v) && LiveCommit(acts, 3, "t", v, 5.0);
    HitIsCarried(digest, acts, "t", 10, 5.0, v);
  }
}
