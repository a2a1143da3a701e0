// The token validation cache of `app/api/deps.py`: a dictionary with expiry times, and an index from
// users to the keys cached for them.  Every operation runs under one lock, so a run of the process is
// a sequence of operations; the clock is read before the lock is taken, so readings need not ascend.
module AuthCache {
  import opened Options

  datatype Validated = Validated(userId: int, sid: Option<string>, issuedAt: Option<int>)
  datatype Cached = Cached(expiresAt: real, validated: Validated)

  type Key = string
  type Cache = map<Key, Cached>
  type Index = map<int, set<Key>>

  // ----- the index as a function of the cache

  ghost function KeysOf(cache: Cache, user: int): set<Key> {
    set k | k in cache && cache[k].validated.userId == user
  }

  ghost function Inverse(cache: Cache): Index {
    map u | u in (set k | k in cache :: cache[k].validated.userId) :: KeysOf(cache, u)
  }

  /** The index is the inverse of the cache exactly when it lists, for each user with cached keys, just those keys. */
  lemma IndexIsInverse(cache: Cache, index: Index)
    ensures index == Inverse(cache) <==>
            && (forall k, u :: k in cache && cache[k].validated.userId == u <==> u in index && k in index[u])
            && (forall u | u in index :: index[u] != {})
  {
    var inverse := Inverse(cache);
    forall k | k in cache ensures cache[k].validated.userId in inverse && k in inverse[cache[k].validated.userId] {
    }
    if (forall k, u :: k in cache && cache[k].validated.userId == u <==> u in index && k in index[u]) &&
       (forall u | u in index :: index[u] != {}) {
      forall u | u in index ensures u in inverse && index[u] == inverse[u] {
        var k :| k in index[u];
        assert k in cache && cache[k].validated.userId == u;
        forall j ensures j in index[u] <==> j in inverse[u] {
        }
      }
      forall u | u in inverse ensures u in index {
        var k :| k in cache && cache[k].validated.userId == u;
        assert u in index && k in index[u];
      }
      assert index.Keys == inverse.Keys;
    }
  }

  /** No key is listed for two users. */
  lemma OneUserPerKey(cache: Cache, index: Index, k: Key, u: int, v: int)
    requires index == Inverse(cache)
    requires u in index && k in index[u] && v in index && k in index[v]
    ensures u == v
  {
    IndexIsInverse(cache, index);
  }

  // ----- what each operation does to the cache

  function Pruned(cache: Cache, now: real): Cache {
    map k | k in cache && cache[k].expiresAt > now :: cache[k]
  }

  function WithoutUser(cache: Cache, user: int): Cache {
    map k | k in cache && cache[k].validated.userId != user :: cache[k]
  }

  datatype Op =
    | Store(token: string, validated: Validated, ttl: int, now: real)
    | Get(token: string, ttl: int, now: real)
    | InvalidateToken(maybeToken: Option<string>)
    | InvalidateUser(userId: int)

  function Apply(digest: string -> Key, cache: Cache, op: Op): Cache {
    match op
    case Store(token, validated, ttl, now) =>
      if ttl <= 0 then cache else Pruned(cache, now)[digest(token) := Cached(now + ttl as real, validated)]
    case Get(_, ttl, now) =>
      if ttl <= 0 then cache else Pruned(cache, now)
    case InvalidateToken(maybeToken) =>
      if maybeToken == None || maybeToken == Some("") then cache else cache - {digest(maybeToken.value)}
    case InvalidateUser(userId) =>
      WithoutUser(cache, userId)
  }

  // ----- the code

  /** The index once `key` is no longer listed for `user`. */
  function Unlisted(index: Index, user: int, key: Key): Index {
    if user in index && index[user] != {} then
      if index[user] - {key} == {} then index - {user} else index[user := index[user] - {key}]
    else index
  }

  lemma RemovingKey(cache: Cache, key: Key)
    requires key in cache
    ensures Inverse(cache - {key}) == Unlisted(Inverse(cache), cache[key].validated.userId, key)
  {
    var user, index := cache[key].validated.userId, Inverse(cache);
    IndexIsInverse(cache, index);
    IndexIsInverse(cache - {key}, Unlisted(index, user, key));
  }

  lemma AddingKey(cache: Cache, key: Key, cached: Cached)
    requires key !in cache
    ensures var u := cached.validated.userId; var index := Inverse(cache);
            Inverse(cache[key := cached]) == index[u := (if u in index then index[u] else {}) + {key}]
  {
    var u, index := cached.validated.userId, Inverse(cache);
    IndexIsInverse(cache, index);
    IndexIsInverse(cache[key := cached], index[u := (if u in index then index[u] else {}) + {key}]);
  }

  lemma RemovingUser(cache: Cache, user: int)
    ensures Inverse(WithoutUser(cache, user)) == Inverse(cache) - {user}
    ensures WithoutUser(cache, user) == cache - (if user in Inverse(cache) then Inverse(cache)[user] else {})
  {
    IndexIsInverse(cache, Inverse(cache));
    IndexIsInverse(WithoutUser(cache, user), Inverse(cache) - {user});
  }

  class TokenCache {
    const digest: string -> Key
    var cache: Cache
    var index: Index

    ghost predicate Valid()
      reads this
    {
      index == Inverse(cache)
    }

    constructor (hash: string -> Key)
      ensures digest == hash && cache == map[] && Valid()
    {
      digest := hash;
      cache, index := map[], map[];
    }

    /** `discard`, then `pop` when the set is left empty. */
    method Unlist(user: int, key: Key)
      modifies this`index
      ensures index == Unlisted(old(index), user, key)
    {
      if user in index && index[user] != {} {
        index := index[user := index[user] - {key}];
        if index[user] == {} {
          index := index - {user};
        }
      }
    }

    method Prune(now: real)
      requires Valid()
      modifies this
      ensures Valid() && cache == Pruned(old(cache), now)
    {
      hide Inverse;
      var expired := set k | k in cache && cache[k].expiresAt <= now;
      while expired != {}
        invariant Valid()
        invariant forall k | k in cache :: k in old(cache) && cache[k] == old(cache)[k]
        invariant forall k | k in old(cache) :: k in cache <==> old(cache)[k].expiresAt > now || k in expired
        invariant forall k | k in expired :: k in cache
        decreases expired
      {
        var key :| key in expired;
        var cached := cache[key];
        RemovingKey(cache, key);
        cache := cache - {key};
        Unlist(cached.validated.userId, key);
        expired := expired - {key};
      }
    }

    method StoreValidatedToken(token: string, validated: Validated, ttl: int, now: real)
      requires Valid()
      modifies this
      ensures Valid() && cache == Apply(digest, old(cache), Store(token, validated, ttl, now))
    {
      hide Inverse, Pruned, Unlisted;
      if ttl <= 0 {
        return;
      }
      var cacheKey := digest(token);
      Prune(now);
      ghost var pruned := cache;
      ghost var rest := cache - {cacheKey};
      if cacheKey in cache {
        RemovingKey(cache, cacheKey);
        Unlist(cache[cacheKey].validated.userId, cacheKey);
      } else {
        assert rest == cache;
      }
      cache := cache[cacheKey := Cached(now + ttl as real, validated)];
      AddingKey(rest, cacheKey, cache[cacheKey]);
      assert rest[cacheKey := cache[cacheKey]] == cache;
      index := index[validated.userId := (if validated.userId in index then index[validated.userId] else {}) + {cacheKey}];
    }

    method GetValidatedToken(token: string, ttl: int, now: real) returns (found: Option<Validated>)
      requires Valid()
      modifies this
      ensures Valid() && cache == Apply(digest, old(cache), Get(token, ttl, now))
      ensures found == Lookup(digest, old(cache), token, ttl, now)
    {
      hide Inverse;
      if ttl <= 0 {
        return None;
      }
      var cacheKey := digest(token);
      Prune(now);
      if cacheKey !in cache || cache[cacheKey].expiresAt <= now {
        return None;
      }
      return Some(cache[cacheKey].validated);
    }

    method InvalidateTokenCache(maybeToken: Option<string>)
      requires Valid()
      modifies this
      ensures Valid() && cache == Apply(digest, old(cache), InvalidateToken(maybeToken))
    {
      hide Inverse, Unlisted;
      if maybeToken == None || maybeToken == Some("") {
        return;
      }
      var cacheKey := digest(maybeToken.value);
      if cacheKey in cache {
        var cached := cache[cacheKey];
        RemovingKey(cache, cacheKey);
        cache := cache - {cacheKey};
        Unlist(cached.validated.userId, cacheKey);
      } else {
        assert cache - {cacheKey} == cache;
      }
    }

    method InvalidateUserTokenCache(userId: int)
      requires Valid()
      modifies this
      ensures Valid() && cache == Apply(digest, old(cache), InvalidateUser(userId))
    {
      hide Inverse, WithoutUser;
      RemovingUser(cache, userId);
      var cacheKeys := if userId in index then index[userId] else {};
      index := index - {userId};
      ghost var all := cacheKeys;
      while cacheKeys != {}
        invariant cacheKeys <= all && cache == old(cache) - (all - cacheKeys)
        invariant index == old(index) - {userId}
        decreases cacheKeys
      {
        var cacheKey :| cacheKey in cacheKeys;
        cache := cache - {cacheKey};
        cacheKeys := cacheKeys - {cacheKey};
      }
      assert all - cacheKeys == all;
    }
  }

  function Lookup(digest: string -> Key, cache: Cache, token: string, ttl: int, now: real): Option<Validated> {
    var key := digest(token);
    if ttl > 0 && key in cache && cache[key].expiresAt > now then Some(cache[key].validated) else None
  }

  // ----- the same, told as a history

  /** The cache after the operations, in the order in which they took the lock. */
  function Run(digest: string -> Key, ops: seq<Op>): Cache {
    if ops == [] then map[] else Apply(digest, Run(digest, ops[..|ops| - 1]), ops[|ops| - 1])
  }

  ghost predicate Issues(op: Op, token: string, cached: Cached) {
    op.Store? && op.token == token && op.ttl > 0 && cached == Cached(op.now + op.ttl as real, op.validated)
  }

  /** The operation ends the life of what was stored for the token. */
  predicate Ends(op: Op, token: string, cached: Cached) {
    match op
    case Store(t, _, ttl, now) => ttl > 0 && (t == token || cached.expiresAt <= now)
    case Get(_, ttl, now) => ttl > 0 && cached.expiresAt <= now
    case InvalidateToken(t) => t == Some(token) && token != ""
    case InvalidateUser(u) => u == cached.validated.userId
  }

  /** The `i`th operation stored this for the token, and nothing since has ended it. */
  ghost predicate LiveStore(ops: seq<Op>, i: int, token: string, cached: Cached) {
    0 <= i < |ops| && Issues(ops[i], token, cached) && forall j | i < j < |ops| :: !Ends(ops[j], token, cached)
  }

  ghost predicate Injective(digest: string -> Key) {
    forall s, t | digest(s) == digest(t) :: s == t
  }

  lemma {:induction false} CacheIsHistory(digest: string -> Key, ops: seq<Op>, token: string, cached: Cached)
    requires Injective(digest)
    ensures (digest(token) in Run(digest, ops) && Run(digest, ops)[digest(token)] == cached) <==>
            exists i :: LiveStore(ops, i, token, cached)
  {
    if ops != [] {
      var n := |ops| - 1;
      var before, op, key := ops[..n], ops[n], digest(token);
      CacheIsHistory(digest, before, token, cached);
      StepIsHistory(digest, Run(digest, before), op, token, cached);
      if i :| LiveStore(ops, i, token, cached) {
        if i < n {
          assert LiveStore(before, i, token, cached);
        }
      }
      if i :| LiveStore(before, i, token, cached) {
        if !Ends(op, token, cached) {
          assert LiveStore(ops, i, token, cached);
        }
      }
      if Issues(op, token, cached) {
        assert LiveStore(ops, n, token, cached);
      }
    }
  }

  lemma StepIsHistory(digest: string -> Key, cache: Cache, op: Op, token: string, cached: Cached)
    requires Injective(digest)
    ensures var after := Apply(digest, cache, op); var key := digest(token);
            (key in after && after[key] == cached) <==>
            (Issues(op, token, cached) || (key in cache && cache[key] == cached && !Ends(op, token, cached)))
  {
  }

  /** A lookup hits exactly when some store of the token is live and outlasts the reader's clock. */
  lemma HitMeansLiveStore(digest: string -> Key, ops: seq<Op>, token: string, ttl: int, now: real, v: Validated)
    requires Injective(digest)
    ensures Lookup(digest, Run(digest, ops), token, ttl, now) == Some(v) <==>
            ttl > 0 && exists i, cached :: LiveStore(ops, i, token, cached) && cached.expiresAt > now && cached.validated == v
  {
    var cache, key := Run(digest, ops), digest(token);
    if Lookup(digest, cache, token, ttl, now) == Some(v) {
      CacheIsHistory(digest, ops, token, cache[key]);
    }
    forall i, cached | LiveStore(ops, i, token, cached)
      ensures key in cache && cache[key] == cached
    {
      CacheIsHistory(digest, ops, token, cached);
    }
  }

  /** The live store is the latest store of its token. */
  lemma LiveStoreIsLatest(ops: seq<Op>, i: int, j: nat, token: string, cached: Cached)
    requires LiveStore(ops, i, token, cached)
    requires j < |ops| && ops[j].Store? && ops[j].token == token && ops[j].ttl > 0
    ensures j <= i
  {
    assert i < j ==> !Ends(ops[j], token, cached);
  }

  /** After a user's cache is invalidated, a hit for that user needs a store made since. */
  lemma NoHitAfterLogout(digest: string -> Key, ops: seq<Op>, j: nat, token: string, ttl: int, now: real, v: Validated)
    requires Injective(digest)
    requires j < |ops| && ops[j] == InvalidateUser(v.userId)
    requires Lookup(digest, Run(digest, ops), token, ttl, now) == Some(v)
    ensures exists i :: j < i < |ops| && ops[i].Store? && ops[i].token == token && ops[i].validated == v
  {
    HitMeansLiveStore(digest, ops, token, ttl, now, v);
    var i, cached :| LiveStore(ops, i, token, cached) && cached.expiresAt > now && cached.validated == v;
    assert Ends(ops[j], token, cached);
  }

  /** As `Ends`, without expiry. */
  predicate Revokes(op: Op, token: string, v: Validated) {
    match op
    case Store(t, _, ttl, _) => ttl > 0 && t == token
    case Get(_, _, _) => false
    case InvalidateToken(t) => t == Some(token) && token != ""
    case InvalidateUser(u) => u == v.userId
  }

  /** The operation removes whatever expires at the given time. */
  predicate Prunes(op: Op, expiresAt: real) {
    (op.Store? || op.Get?) && op.ttl > 0 && expiresAt <= op.now
  }

  lemma EndsExactly(op: Op, token: string, cached: Cached)
    ensures Ends(op, token, cached) <==> Revokes(op, token, cached.validated) || Prunes(op, cached.expiresAt)
  {
  }

  lemma LiveExactly(ops: seq<Op>, i: int, token: string, cached: Cached)
    ensures LiveStore(ops, i, token, cached) <==>
            && 0 <= i < |ops| && Issues(ops[i], token, cached)
            && (forall j | i < j < |ops| :: !Revokes(ops[j], token, cached.validated))
            && (forall j | i < j < |ops| :: !Prunes(ops[j], cached.expiresAt))
  {
    hide Issues, Ends, Revokes, Prunes;
    forall j | 0 <= j < |ops|
      ensures Ends(ops[j], token, cached) <==>
              Revokes(ops[j], token, cached.validated) || Prunes(ops[j], cached.expiresAt)
    {
      EndsExactly(ops[j], token, cached);
    }
  }

  /** A store that has not been revoked or expired is hit unless an operation since has read a clock beyond its expiry. */
  lemma HitUnlessPruned(digest: string -> Key, ops: seq<Op>, i: nat, token: string, cached: Cached, ttl: int, now: real)
    requires Injective(digest) && i < |ops| && Issues(ops[i], token, cached)
    requires forall j | i < j < |ops| :: !Revokes(ops[j], token, cached.validated)
    requires ttl > 0 && now < cached.expiresAt
    ensures Lookup(digest, Run(digest, ops), token, ttl, now) == Some(cached.validated) <==>
            !exists j :: i < j < |ops| && Prunes(ops[j], cached.expiresAt)
  {
    hide Lookup, Run, Ends, Prunes, Injective;
    HitMeansLiveStore(digest, ops, token, ttl, now, cached.validated);
    LiveExactly(ops, i, token, cached);
    forall k, c | LiveStore(ops, k, token, c) ensures k == i && c == cached {
      LiveIsUnrevoked(ops, i, k, token, cached, c);
    }
  }

  lemma LiveIsUnrevoked(ops: seq<Op>, i: nat, k: int, token: string, cached: Cached, live: Cached)
    requires i < |ops| && Issues(ops[i], token, cached) && LiveStore(ops, k, token, live)
    requires forall j | i < j < |ops| :: !Revokes(ops[j], token, cached.validated)
    ensures k == i && live == cached
  {
    LiveStoreIsLatest(ops, k, i, token, live);
    assert Revokes(ops[k], token, cached.validated);
  }

  /** A reading of another token, later than the expiry, removes an entry that a slower reader still wanted. */
  lemma PrunedBeforeItsTime(digest: string -> Key, v: Validated)
    requires Injective(digest)
    ensures var store, get := Store("t", v, 10, 0.0), Get("u", 10, 11.0);
            && Lookup(digest, Run(digest, [store]), "t", 10, 5.0) == Some(v)
            && Lookup(digest, Run(digest, [store, get]), "t", 10, 5.0) == None
  {
    var store, get := Store("t", v, 10, 0.0), Get("u", 10, 11.0);
    assert [store][..0] == [] && [store, get][..1] == [store];
    assert Run(digest, [store]) == Apply(digest, map[], store);
    assert Run(digest, [store, get]) == Apply(digest, Run(digest, [store]), get);
  }

  /** No operation read a later time than the reader does. */
  ghost predicate NoReadingAhead(ops: seq<Op>, now: real) {
    forall i | 0 <= i < |ops| && (ops[i].Store? || ops[i].Get?) :: ops[i].now <= now
  }

  /** When no earlier reading is ahead of the reader's clock, pruning is invisible: only expiry and revocation matter. */
  lemma HitWithNoReadingAhead(digest: string -> Key, ops: seq<Op>, token: string, ttl: int, now: real, v: Validated)
    requires Injective(digest) && NoReadingAhead(ops, now)
    ensures Lookup(digest, Run(digest, ops), token, ttl, now) == Some(v) <==>
            ttl > 0 && exists i, cached ::
              && 0 <= i < |ops| && Issues(ops[i], token, cached) && cached.validated == v && cached.expiresAt > now
              && forall j | i < j < |ops| :: !Revokes(ops[j], token, v)
  {
    hide Lookup, Run, Issues, Ends, Revokes, Injective;
    HitMeansLiveStore(digest, ops, token, ttl, now, v);
    forall i, cached | 0 <= i < |ops| && Issues(ops[i], token, cached) && cached.expiresAt > now
      ensures LiveStore(ops, i, token, cached) <==> forall j | i < j < |ops| :: !Revokes(ops[j], token, cached.validated)
    {
      LiveExactly(ops, i, token, cached);
    }
  }
}
