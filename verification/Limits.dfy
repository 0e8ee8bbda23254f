/** The runtime limiter of mizan-limits: fixed-window counters and concurrency slots kept in a
    key store, acquired over several scopes with rollback. */
module Limits {
  import opened Core

  datatype LimitScope = ApiKey(id: string) | User(id: string) | Provider(id: string) {
    function KeyPart(): string {
      match this
      case ApiKey(id) => "api_key:" + id
      case User(id) => "user:" + id
      case Provider(id) => "provider:" + id
    }
  }

  function RequestCounterKey(scope: LimitScope): string {
    "mizan:limit:rpm:" + scope.KeyPart()
  }

  function TokenCounterKey(scope: LimitScope): string {
    "mizan:limit:tpm:" + scope.KeyPart()
  }

  function ConcurrencyCounterKey(scope: LimitScope): string {
    "mizan:limit:concurrency:" + scope.KeyPart()
  }

  lemma KeyPartInjective(a: LimitScope, b: LimitScope)
    ensures a.KeyPart() == b.KeyPart() <==> a == b
  {
    var x, y := a.KeyPart(), b.KeyPart();
    assert a.ApiKey? ==> x[0] == 'a' && x[8..] == a.id;
    assert b.ApiKey? ==> y[0] == 'a' && y[8..] == b.id;
    assert a.User? ==> x[0] == 'u' && x[5..] == a.id;
    assert b.User? ==> y[0] == 'u' && y[5..] == b.id;
    assert a.Provider? ==> x[0] == 'p' && x[9..] == a.id;
    assert b.Provider? ==> y[0] == 'p' && y[9..] == b.id;
  }

  /** Different counters never share a key, whatever the identifiers are. */
  lemma KeysAreDistinct(a: LimitScope, b: LimitScope)
    ensures RequestCounterKey(a) == RequestCounterKey(b) <==> a == b
    ensures TokenCounterKey(a) == TokenCounterKey(b) <==> a == b
    ensures ConcurrencyCounterKey(a) == ConcurrencyCounterKey(b) <==> a == b
    ensures RequestCounterKey(a) != TokenCounterKey(b)
    ensures RequestCounterKey(a) != ConcurrencyCounterKey(b)
    ensures TokenCounterKey(a) != ConcurrencyCounterKey(b)
  {
    KeyPartInjective(a, b);
    hide LimitScope.KeyPart;
    assert RequestCounterKey(a)[12] == 'r' && TokenCounterKey(a)[12] == 't';
    assert TokenCounterKey(b)[12] == 't' && ConcurrencyCounterKey(b)[12] == 'c';
    assert RequestCounterKey(a)[16..] == a.KeyPart() && RequestCounterKey(b)[16..] == b.KeyPart();
    assert TokenCounterKey(a)[16..] == a.KeyPart() && TokenCounterKey(b)[16..] == b.KeyPart();
    assert ConcurrencyCounterKey(a)[24..] == a.KeyPart() && ConcurrencyCounterKey(b)[24..] == b.KeyPart();
  }

  /** The keys, spelled out. */
  lemma KeysAreSpelled(id: string)
    ensures RequestCounterKey(ApiKey(id)) == "mizan:limit:rpm:" + ("api_key:" + id)
    ensures RequestCounterKey(User(id)) == "mizan:limit:rpm:" + ("user:" + id)
    ensures RequestCounterKey(LimitScope.Provider(id)) == "mizan:limit:rpm:" + ("provider:" + id)
    ensures TokenCounterKey(ApiKey(id)) == "mizan:limit:tpm:" + ("api_key:" + id)
    ensures TokenCounterKey(User(id)) == "mizan:limit:tpm:" + ("user:" + id)
    ensures TokenCounterKey(LimitScope.Provider(id)) == "mizan:limit:tpm:" + ("provider:" + id)
    ensures ConcurrencyCounterKey(ApiKey(id)) == "mizan:limit:concurrency:" + ("api_key:" + id)
    ensures ConcurrencyCounterKey(User(id)) == "mizan:limit:concurrency:" + ("user:" + id)
    ensures ConcurrencyCounterKey(LimitScope.Provider(id)) == "mizan:limit:concurrency:" + ("provider:" + id)
  {
  }

  // ----- The key store and its two scripts -----

  type Time = nat

  datatype Counter = Counter(count: int, expiresAt: Option<Time>)

  type Store = map<string, Counter>

  function Value(store: Store, key: string): int {
    if key in store then store[key].count else 0
  }

  function Ttl(seconds: nat): nat {
    if seconds == 0 then 1 else seconds
  }

  /** `increment_window_counter`: the expiry is set only when the count equals the amount. */
  function Incremented(store: Store, key: string, ttl: nat, amount: nat, now: Time): Store {
    var count := Value(store, key) + amount;
    var expiresAt := if count == amount then Some(now + Ttl(ttl)) else if key in store then store[key].expiresAt else None;
    store[key := Counter(count, expiresAt)]
  }

  /** `release_key`: nothing for an absent key; a count that reaches zero removes it. */
  function Released(store: Store, key: string): Store {
    if key !in store then store
    else if store[key].count - 1 <= 0 then store - {key}
    else store[key := store[key].(count := store[key].count - 1)]
  }

  /** Counters that are there count something. */
  predicate Positive(store: Store) {
    forall key :: key in store ==> store[key].count >= 1
  }

  // ----- What a call leaves behind -----

  datatype Policy = Policy(requestsPerWindow: nat, tokensPerWindow: nat, concurrentRequests: nat, windowSeconds: nat, leaseSeconds: nat) {
    predicate IsDisabled() {
      requestsPerWindow == 0 && tokensPerWindow == 0 && concurrentRequests == 0
    }

    predicate CountsTokens(tokens: nat) {
      tokensPerWindow != 0 && tokens != 0
    }
  }

  /** The request counter of one more scope has grown. */
  function RequestGrown(store: Store, policy: Policy, scope: LimitScope, now: Time): Store {
    if policy.requestsPerWindow == 0 then store
    else Incremented(store, RequestCounterKey(scope), policy.windowSeconds, 1, now)
  }

  function TokenGrown(store: Store, policy: Policy, scope: LimitScope, tokens: nat, now: Time): Store {
    if !policy.CountsTokens(tokens) then store
    else Incremented(store, TokenCounterKey(scope), policy.windowSeconds, tokens, now)
  }

  /** The rate counters of all `scopes` have grown, and nothing else. */
  function RateGrown(store: Store, policy: Policy, scopes: seq<LimitScope>, tokens: nat, now: Time): Store {
    if scopes == [] then store
    else
      var init, last := scopes[..|scopes| - 1], scopes[|scopes| - 1];
      TokenGrown(RequestGrown(RateGrown(store, policy, init, tokens, now), policy, last, now), policy, last, tokens, now)
  }

  function LeaseKeys(policy: Policy, scopes: seq<LimitScope>): seq<string> {
    if policy.concurrentRequests == 0 then [] else seq(|scopes|, i requires 0 <= i < |scopes| => ConcurrencyCounterKey(scopes[i]))
  }

  /** `store` is `base` with the slots `held` taken on top. */
  ghost predicate Holds(base: Store, store: Store, held: multiset<string>) {
    forall key ::
      && (key in store <==> key in base || held[key] > 0)
      && (key in store ==> store[key].count == Value(base, key) + held[key])
      && (key in base ==> store[key].expiresAt == base[key].expiresAt)
  }

  lemma HoldsNothing(base: Store, store: Store)
    requires Holds(base, store, multiset{})
    ensures store == base
  {
  }

  lemma HoldsCounts(base: Store, store: Store, held: multiset<string>, key: string)
    requires Holds(base, store, held)
    ensures Value(store, key) == Value(base, key) + held[key]
  {
  }

  lemma AcquireHolds(base: Store, store: Store, held: multiset<string>, key: string, ttl: nat, now: Time)
    requires Holds(base, store, held) && Positive(base)
    ensures Holds(base, Incremented(store, key, ttl, 1, now), held + multiset{key})
  {
  }

  lemma ReleaseHolds(base: Store, store: Store, held: multiset<string>, key: string)
    requires Holds(base, store, held) && Positive(base) && key in held
    ensures Holds(base, Released(store, key), held - multiset{key})
  {
  }

  lemma RateHolds(base: Store, store: Store, held: multiset<string>, key: string, ttl: nat, amount: nat, now: Time)
    requires Holds(base, store, held) && Positive(base) && held[key] == 0 && amount > 0
    ensures Holds(Incremented(base, key, ttl, amount, now), Incremented(store, key, ttl, amount, now), held)
    ensures Positive(Incremented(base, key, ttl, amount, now))
  {
  }

  // ----- The calls -----

  const DOWN := AppError.Infrastructure("key store command failed")

  function Exceeded(what: string, scope: LimitScope): AppError {
    LimitExceeded(what + " exceeded for " + scope.KeyPart())
  }

  datatype Lease = Lease(keys: seq<string>)

  /** The step that refused a scope list. */
  datatype Refusal = NotRefused | ByRequests(index: nat) | ByTokens(index: nat) | BySlots(index: nat)

  class Redis {
    var store: Store
    var now: Time

    /** How many commands have failed. */
    ghost var failures: nat

    constructor (now: Time)
      ensures store == map[] && this.now == now && failures == 0
    {
      store, this.now, failures := map[], now, 0;
    }

    method IncrementWindowCounter(key: string, ttl: nat, amount: nat) returns (r: AppResult<int>)
      requires Positive(store) && amount > 0
      modifies this`store, this`failures
      ensures Positive(store)
      ensures r.Success? ==>
                store == Incremented(old(store), key, ttl, amount, now) && r.value == Value(store, key) && failures == old(failures)
      ensures r.Failure? ==> r == Failure(DOWN) && store == old(store) && failures == old(failures) + 1
    {
      var up := *;
      if up {
        store := Incremented(store, key, ttl, amount, now);
        return Success(store[key].count);
      }
      failures := failures + 1;
      return Failure(DOWN);
    }

    method ReleaseKey(key: string) returns (r: AppResult<int>)
      requires Positive(store)
      modifies this`store, this`failures
      ensures Positive(store)
      ensures r.Success? ==> store == Released(old(store), key) && failures == old(failures)
      ensures r.Success? ==> r.value == if key in old(store) then old(store)[key].count - 1 else 0
      ensures r.Failure? ==> r == Failure(DOWN) && store == old(store) && failures == old(failures) + 1
    {
      var up := *;
      if up {
        var current := if key in store then store[key].count - 1 else 0;
        store := Released(store, key);
        return Success(current);
      }
      failures := failures + 1;
      return Failure(DOWN);
    }

    /** Tries every key, whatever fails, and reports the first failure: each key is either one of
        the `returned`, released once, or accounts for one failed command. */
    method ReleaseKeys(keys: seq<string>) returns (r: AppResult<()>, ghost returned: seq<string>)
      requires Positive(store)
      modifies this`store, this`failures
      ensures Positive(store)
      ensures failures >= old(failures)
      ensures r.Success? <==> failures == old(failures)
      ensures r.Failure? ==> r == Failure(DOWN)
      ensures store == ReleasedAll(old(store), returned)
      ensures multiset(returned) <= multiset(keys) && |returned| + (failures - old(failures)) == |keys|
      ensures r.Success? ==> returned == keys
    {
      hide Released, Positive;
      var firstError: Option<AppError> := None;
      returned := [];
      for i := 0 to |keys|
        invariant Positive(store) && failures >= old(failures)
        invariant firstError.None? <==> failures == old(failures)
        invariant firstError.Some? ==> firstError == Some(DOWN)
        invariant store == ReleasedAll(old(store), returned)
        invariant multiset(returned) <= multiset(keys[..i]) && |returned| + (failures - old(failures)) == i
        invariant firstError.None? ==> returned == keys[..i]
      {
        assert keys[..i + 1] == keys[..i] + [keys[i]];
        assert (returned + [keys[i]])[..|returned|] == returned;
        var released := ReleaseKey(keys[i]);
        if released.Success? {
          returned := returned + [keys[i]];
        }
        if firstError.None? && released.Failure? {
          firstError := Some(released.error);
        }
      }
      assert keys[..|keys|] == keys;
      if firstError.Some? {
        return Failure(firstError.value), returned;
      }
      return Success(()), returned;
    }

    /** `RuntimeLimitLease::release`. */
    method Release(lease: Lease) returns (r: AppResult<()>, ghost returned: seq<string>)
      requires Positive(store)
      modifies this`store, this`failures
      ensures Positive(store)
      ensures failures >= old(failures)
      ensures store == ReleasedAll(old(store), returned) && multiset(returned) <= multiset(lease.keys)
      ensures r.Success? ==> returned == lease.keys && failures == old(failures)
      ensures r.Failure? ==> r == Failure(DOWN) && failures > old(failures)
    {
      hide Positive;
      if lease.keys == [] {
        return Success(()), [];
      }
      var up := *;
      if !up {
        failures := failures + 1;
        return Failure(DOWN), [];
      }
      r, returned := ReleaseKeys(lease.keys);
    }

    method CheckRequestCounter(policy: Policy, scope: LimitScope) returns (r: AppResult<()>)
      requires Positive(store)
      modifies this`store, this`failures
      ensures Positive(store)
      ensures r == Failure(DOWN) <==> failures > old(failures)
      ensures failures >= old(failures)
      ensures store == if r == Failure(DOWN) then old(store) else RequestGrown(old(store), policy, scope, now)
      ensures r.Success? ==> policy.requestsPerWindow == 0 || Value(store, RequestCounterKey(scope)) <= policy.requestsPerWindow
      ensures r.Failure? && r != Failure(DOWN) ==>
                && r == Failure(Exceeded("requests_per_window", scope))
                && 0 < policy.requestsPerWindow < Value(store, RequestCounterKey(scope))
    {
      hide Positive, Incremented, RequestCounterKey, LimitScope.KeyPart;
      if policy.requestsPerWindow == 0 {
        return Success(());
      }
      var count := IncrementWindowCounter(RequestCounterKey(scope), policy.windowSeconds, 1);
      if count.Failure? {
        return Failure(count.error);
      }
      if count.value > policy.requestsPerWindow {
        return Failure(Exceeded("requests_per_window", scope));
      }
      return Success(());
    }

    method CheckTokenCounter(policy: Policy, scope: LimitScope, tokens: nat) returns (r: AppResult<()>)
      requires Positive(store)
      modifies this`store, this`failures
      ensures Positive(store)
      ensures r == Failure(DOWN) <==> failures > old(failures)
      ensures failures >= old(failures)
      ensures store == if r == Failure(DOWN) then old(store) else TokenGrown(old(store), policy, scope, tokens, now)
      ensures r.Success? ==> !policy.CountsTokens(tokens) || Value(store, TokenCounterKey(scope)) <= policy.tokensPerWindow
      ensures r.Failure? && r != Failure(DOWN) ==>
                && r == Failure(Exceeded("tokens_per_window", scope))
                && policy.CountsTokens(tokens) && policy.tokensPerWindow < Value(store, TokenCounterKey(scope))
    {
      hide Positive, Incremented, TokenCounterKey, LimitScope.KeyPart;
      if policy.tokensPerWindow == 0 || tokens == 0 {
        return Success(());
      }
      var count := IncrementWindowCounter(TokenCounterKey(scope), policy.windowSeconds, tokens);
      if count.Failure? {
        return Failure(count.error);
      }
      if count.value > policy.tokensPerWindow {
        return Failure(Exceeded("tokens_per_window", scope));
      }
      return Success(());
    }

    /** Takes one slot, or gives it back at once when that is one too many. When that fails the slot
        stays `stuck`. */
    method AcquireConcurrencyLease(policy: Policy, scope: LimitScope)
      returns (r: AppResult<Option<string>>, ghost stuck: bool)
      requires Positive(store)
      modifies this`store, this`failures
      ensures Positive(store)
      ensures r == Failure(DOWN) <==> failures > old(failures)
      ensures failures >= old(failures)
      ensures r == Failure(DOWN) ==>
                var key := ConcurrencyCounterKey(scope);
                && policy.concurrentRequests > 0
                && store == if stuck then Incremented(old(store), key, policy.leaseSeconds, 1, now) else old(store)
      ensures r.Success? ==>
                var key := ConcurrencyCounterKey(scope);
                if policy.concurrentRequests == 0 then r.value.None? && store == old(store)
                else r.value == Some(key) && store == Incremented(old(store), key, policy.leaseSeconds, 1, now)
                     && Value(store, key) <= policy.concurrentRequests
      ensures r.Failure? && r != Failure(DOWN) ==>
                var key := ConcurrencyCounterKey(scope);
                var taken := Incremented(old(store), key, policy.leaseSeconds, 1, now);
                && r == Failure(Exceeded("concurrent_requests", scope))
                && 0 < policy.concurrentRequests < Value(taken, key) && store == Released(taken, key)
    {
      hide Positive, Released, ConcurrencyCounterKey, LimitScope.KeyPart;
      if policy.concurrentRequests == 0 {
        return Success(None), false;
      }
      var key := ConcurrencyCounterKey(scope);
      var count := IncrementWindowCounter(key, policy.leaseSeconds, 1);
      if count.Failure? {
        return Failure(count.error), false;
      }
      if count.value > policy.concurrentRequests {
        var released := ReleaseKey(key);
        if released.Failure? {
          return Failure(released.error), true;
        }
        return Failure(Exceeded("concurrent_requests", scope)), false;
      }
      return Success(Some(key)), false;
    }

    /** Gives back what was acquired before a refusal or a failed command, whose own errors are ignored.
        `held` are the slots on top of `base`. */
    method RollBack(acquired: seq<string>, ghost entry: Store, ghost policy: Policy, ghost scopes: seq<LimitScope>, ghost i: nat,
                    ghost base: Store, ghost held: seq<string>, ghost failed: nat) returns (ghost leaked: multiset<string>)
      requires Positive(store) && i < |scopes| && SameSlotCounters(entry, base) && On(base, store, held)
      requires held == LeaseKeys(policy, scopes[..i]) || held == LeaseKeys(policy, scopes[..i + 1])
      requires multiset(acquired) <= multiset(held) && |held| - |acquired| <= failed
      modifies this`store, this`failures
      ensures Positive(store) && failures >= old(failures)
      ensures failures == old(failures) ==> store == ReleasedAll(old(store), acquired)
      ensures LeftOver(entry, policy, scopes, store, leaked, failed + failures - old(failures))
    {
      hide *;
      var ignored;
      ghost var returned;
      ignored, returned := ReleaseKeys(acquired);
      leaked := LeavesOver(entry, policy, scopes, i, base, old(store), held, returned, failed + failures - old(failures));
    }

    /** Counts a request in every scope and takes one slot in each, or takes no slot at all; after
        failed commands at most as many slots are `leaked`. */
    method CheckAndAcquire(policy: Policy, scopes: seq<LimitScope>, tokens: nat)
      returns (r: AppResult<Lease>, ghost refusal: Refusal, ghost leaked: multiset<string>)
      requires Positive(store)
      modifies this`store, this`failures
      ensures Positive(store) && failures >= old(failures)
      ensures r.Success? ==>
                && r.value.keys == LeaseKeys(policy, scopes) && failures == old(failures)
                && Holds(RateGrown(old(store), policy, scopes, tokens, now), store, multiset(r.value.keys))
      // While the commands succeed, the answer is exactly whether every counter has room.
      ensures r.Success? ==> Admits(old(store), policy, scopes, tokens)
      // Keys made by the call go after the window or the lease, by their kind; others keep their expiry.
      ensures r.Success? ==>
                && RatesExpire(old(store), store, policy, scopes, tokens, now)
                && SlotsExpire(old(store), store, policy, scopes, now)
      ensures failures == old(failures) && r.Failure? ==>
                && !Admits(old(store), policy, scopes, tokens)
                && Refused(old(store), policy, scopes, tokens, now, refusal, store, r.error)
      ensures r.Failure? ==> LeftOver(old(store), policy, scopes, store, leaked, failures - old(failures))
    {
      hide *;
      refusal, leaked := NotRefused, multiset{};
      NothingVisited(store, policy, scopes, tokens, now);
      NothingExpires(store, policy, scopes, tokens, now);
      NothingLeftOver(store, policy, scopes);
      if policy.IsDisabled() || scopes == [] {
        NothingToAcquire(store, policy, scopes, tokens, now);
        return Success(Lease([])), refusal, leaked;
      }
      var up := *;
      if !up {
        failures := failures + 1;
        return Failure(DOWN), refusal, leaked;
      }
      var acquired: seq<string> := [];
      for i := 0 to |scopes|
        invariant Positive(store) && failures == old(failures) && refusal == NotRefused
        invariant acquired == LeaseKeys(policy, scopes[..i])
        invariant On(RateGrown(old(store), policy, scopes[..i], tokens, now), store, acquired)
        invariant Admits(old(store), policy, scopes[..i], tokens)
        invariant SlotsExpire(old(store), store, policy, scopes[..i], now)
      {
        var scope := scopes[i];
        ghost var before := store;
        ghost var visited := RateGrown(old(store), policy, scopes[..i], tokens, now);
        ghost var counted := RequestGrown(visited, policy, scope, now);
        BasesKeepSlots(old(store), policy, scopes, i, tokens, now);
        RequestStep(old(store), policy, scopes, i, tokens, now, store);
        var requests := CheckRequestCounter(policy, scope);
        if requests.Failure? {
          refusal := ByRequests(i);
          if requests != Failure(DOWN) {
            RequestRefused(old(store), policy, scopes, i, tokens, now, store);
          }
          ghost var base := if requests == Failure(DOWN) then visited else counted;
          leaked := RollBack(acquired, old(store), policy, scopes, i, base, acquired, failures - old(failures));
          return Failure(requests.error), refusal, leaked;
        }
        TokenStep(old(store), policy, scopes, i, tokens, now, store);
        var tokensUsed := CheckTokenCounter(policy, scope, tokens);
        ghost var grown := RateGrown(old(store), policy, scopes[..i + 1], tokens, now);
        if tokensUsed.Failure? {
          refusal := ByTokens(i);
          if tokensUsed != Failure(DOWN) {
            LaterRefused(old(store), policy, scopes, i, tokens, now, store);
          }
          ghost var base := if tokensUsed == Failure(DOWN) then counted else grown;
          leaked := RollBack(acquired, old(store), policy, scopes, i, base, acquired, failures - old(failures));
          return Failure(tokensUsed.error), refusal, leaked;
        }
        SlotStep(old(store), policy, scopes, i, tokens, now, store);
        var slot;
        ghost var stuck;
        slot, stuck := AcquireConcurrencyLease(policy, scope);
        if slot.Failure? {
          refusal := BySlots(i);
          if slot != Failure(DOWN) {
            LaterRefused(old(store), policy, scopes, i, tokens, now, store);
          }
          ghost var held := if slot == Failure(DOWN) && stuck then LeaseKeys(policy, scopes[..i + 1]) else acquired;
          leaked := RollBack(acquired, old(store), policy, scopes, i, grown, held, failures - old(failures));
          return Failure(slot.error), refusal, leaked;
        }
        if slot.value.Some? {
          acquired := acquired + [slot.value.value];
        }
        RoomFound(old(store), policy, scopes, i, tokens);
        SlotsExpireStep(old(store), before, policy, scopes, i, tokens, now);
      }
      assert scopes[..|scopes|] == scopes;
      RatesExpireOn(old(store), policy, scopes, tokens, now, store, acquired);
      OnHolds(RateGrown(old(store), policy, scopes, tokens, now), store, acquired);
      return Success(Lease(acquired)), NotRefused, leaked;
    }
  }

  /** After `failed` commands every slot counter is as at entry but for the `leaked` slots, which are
      no more than that. */
  ghost predicate LeftOver(entry: Store, policy: Policy, scopes: seq<LimitScope>, store: Store, leaked: multiset<string>, failed: int) {
    && leaked <= multiset(LeaseKeys(policy, scopes)) && |leaked| <= failed
    && forall scope: LimitScope :: SlotsLeft(entry, store, leaked, ConcurrencyCounterKey(scope))
  }

  predicate SlotsLeft(entry: Store, store: Store, leaked: multiset<string>, key: string) {
    && Value(store, key) == Value(entry, key) + leaked[key]
    && (key in entry ==> key in store && store[key].expiresAt == entry[key].expiresAt)
  }

  ghost predicate SameSlotCounters(entry: Store, store: Store) {
    forall scope: LimitScope :: SameEntry(entry, store, ConcurrencyCounterKey(scope))
  }

  /** How a key of `entry` expires in `store`: as it did, or, when it is new, `seconds` from now, and one
      at the least. */
  predicate Expires(entry: Store, store: Store, key: string, seconds: nat, now: Time) {
    && key in store
    && store[key].expiresAt ==
       if key in entry then entry[key].expiresAt else Some(now + if seconds == 0 then 1 else seconds)
  }

  ghost predicate RatesExpire(entry: Store, store: Store, policy: Policy, scopes: seq<LimitScope>, tokens: nat, now: Time) {
    forall scope <- scopes ::
      && (policy.requestsPerWindow != 0 ==> Expires(entry, store, RequestCounterKey(scope), policy.windowSeconds, now))
      && (policy.tokensPerWindow != 0 && tokens != 0 ==> Expires(entry, store, TokenCounterKey(scope), policy.windowSeconds, now))
  }

  ghost predicate SlotsExpire(entry: Store, store: Store, policy: Policy, scopes: seq<LimitScope>, now: Time) {
    policy.concurrentRequests != 0 ==>
      forall scope <- scopes :: Expires(entry, store, ConcurrencyCounterKey(scope), policy.leaseSeconds, now)
  }

  lemma NothingExpires(store: Store, policy: Policy, scopes: seq<LimitScope>, tokens: nat, now: Time)
    ensures SlotsExpire(store, store, policy, scopes[..0], now)
    ensures policy.IsDisabled() || scopes == [] ==>
              RatesExpire(store, store, policy, scopes, tokens, now) && SlotsExpire(store, store, policy, scopes, now)
  {
  }

  /** An increment keeps the expiry of a key that is there, and dates one that it makes. */
  lemma IncrementExpires(entry: Store, store: Store, key: string, ttl: nat, amount: nat, now: Time)
    requires Positive(store) && amount > 0 && (key in store ==> Expires(entry, store, key, ttl, now))
    requires key !in store ==> key !in entry
    ensures Expires(entry, Incremented(store, key, ttl, amount, now), key, ttl, now)
  {
  }

  lemma SameEntryExpires(entry: Store, before: Store, after: Store, key: string, seconds: nat, now: Time)
    requires Expires(entry, before, key, seconds, now) && SameEntry(before, after, key)
    ensures Expires(entry, after, key, seconds, now)
  {
  }

  lemma OneScopeKeepsSlots(store: Store, policy: Policy, visited: LimitScope, tokens: nat, now: Time, scope: LimitScope)
    ensures SameEntry(store, TokenGrown(RequestGrown(store, policy, visited, now), policy, visited, tokens, now),
                      ConcurrencyCounterKey(scope))
  {
    hide RequestCounterKey, TokenCounterKey, ConcurrencyCounterKey, Incremented, Value;
    OneScopeCounts(store, policy, visited, tokens, now, scope);
  }

  lemma SlotsExpireStep(entry: Store, before: Store, policy: Policy, scopes: seq<LimitScope>, i: nat, tokens: nat, now: Time)
    requires i < |scopes| && SlotsExpire(entry, before, policy, scopes[..i], now)
    requires On(RateGrown(entry, policy, scopes[..i], tokens, now), before, LeaseKeys(policy, scopes[..i]))
    ensures var counted := TokenGrown(RequestGrown(before, policy, scopes[i], now), policy, scopes[i], tokens, now);
            var after := if policy.concurrentRequests == 0 then counted
                         else Incremented(counted, ConcurrencyCounterKey(scopes[i]), policy.leaseSeconds, 1, now);
            SlotsExpire(entry, after, policy, scopes[..i + 1], now)
  {
    hide RequestCounterKey, TokenCounterKey, ConcurrencyCounterKey, Incremented, Value, SameEntry, RateGrown, LeaseKeys, Expires,
         RequestGrown, TokenGrown, Holds;
    if policy.concurrentRequests != 0 {
      var counted := TokenGrown(RequestGrown(before, policy, scopes[i], now), policy, scopes[i], tokens, now);
      var key := ConcurrencyCounterKey(scopes[i]);
      var after := Incremented(counted, key, policy.leaseSeconds, 1, now);
      forall scope | scope in scopes[..i + 1] ensures Expires(entry, after, ConcurrencyCounterKey(scope), policy.leaseSeconds, now) {
        SlotExpires(entry, before, policy, scopes, i, tokens, now, scope);
      }
    }
  }

  lemma SlotExpires(entry: Store, before: Store, policy: Policy, scopes: seq<LimitScope>, i: nat, tokens: nat, now: Time,
                    scope: LimitScope)
    requires i < |scopes| && SlotsExpire(entry, before, policy, scopes[..i], now) && policy.concurrentRequests != 0
    requires On(RateGrown(entry, policy, scopes[..i], tokens, now), before, LeaseKeys(policy, scopes[..i]))
    requires scope in scopes[..i + 1]
    ensures var counted := TokenGrown(RequestGrown(before, policy, scopes[i], now), policy, scopes[i], tokens, now);
            Expires(entry, Incremented(counted, ConcurrencyCounterKey(scopes[i]), policy.leaseSeconds, 1, now),
                    ConcurrencyCounterKey(scope), policy.leaseSeconds, now)
  {
    hide RequestCounterKey, TokenCounterKey, ConcurrencyCounterKey, Incremented, Value, SameEntry, RateGrown, LeaseKeys, Expires,
         RequestGrown, TokenGrown;
    var counted := TokenGrown(RequestGrown(before, policy, scopes[i], now), policy, scopes[i], tokens, now);
    var own, key := ConcurrencyCounterKey(scopes[i]), ConcurrencyCounterKey(scope);
    OneScopeKeepsSlots(before, policy, scopes[i], tokens, now, scope);
    CountedPositive(before, policy, scopes[i], tokens, now);
    if scope in scopes[..i] {
      SameEntryExpires(entry, before, counted, key, policy.leaseSeconds, now);
    } else {
      assert scopes[..i + 1] == scopes[..i] + [scopes[i]];
      HeldBefore(entry, before, policy, scopes, i, tokens, now, counted);
    }
    if key == own {
      IncrementExpires(entry, counted, key, policy.leaseSeconds, 1, now);
    } else {
      IncrementedCounts(counted, own, policy.leaseSeconds, 1, now, key);
      SameEntryExpires(entry, counted, Incremented(counted, own, policy.leaseSeconds, 1, now), key, policy.leaseSeconds, now);
    }
  }

  lemma CountedPositive(store: Store, policy: Policy, scope: LimitScope, tokens: nat, now: Time)
    requires exists base, held :: Positive(base) && Holds(base, store, held)
    ensures Positive(TokenGrown(RequestGrown(store, policy, scope, now), policy, scope, tokens, now))
  {
    hide RequestCounterKey, TokenCounterKey, RequestGrown, TokenGrown;
    var base, held :| Positive(base) && Holds(base, store, held);
    assert Positive(store);
    GrownPositive(store, policy, scope, tokens, now);
  }

  /** A slot key that no scope before has taken is as in the store at entry. */
  lemma HeldBefore(entry: Store, before: Store, policy: Policy, scopes: seq<LimitScope>, i: nat, tokens: nat, now: Time, counted: Store)
    requires i < |scopes| && scopes[i] !in scopes[..i] && policy.concurrentRequests != 0
    requires On(RateGrown(entry, policy, scopes[..i], tokens, now), before, LeaseKeys(policy, scopes[..i]))
    requires SameEntry(before, counted, ConcurrencyCounterKey(scopes[i]))
    ensures var key := ConcurrencyCounterKey(scopes[i]);
            && (key !in counted ==> key !in entry)
            && (key in counted ==> Expires(entry, counted, key, policy.leaseSeconds, now))
  {
    hide RequestCounterKey, TokenCounterKey, ConcurrencyCounterKey, Value, RateGrown, LeaseKeys;
    LeaseKeyCounts(policy, scopes[..i], scopes[i]);
    RateGrownCounts(entry, policy, scopes[..i], tokens, now, scopes[i]);
  }

  lemma {:induction false} RateGrownExpires(entry: Store, policy: Policy, scopes: seq<LimitScope>, tokens: nat, now: Time)
    requires Positive(entry)
    ensures RatesExpire(entry, RateGrown(entry, policy, scopes, tokens, now), policy, scopes, tokens, now)
    ensures Positive(RateGrown(entry, policy, scopes, tokens, now))
    ensures forall scope: LimitScope :: scope !in scopes ==>
              && SameEntry(entry, RateGrown(entry, policy, scopes, tokens, now), RequestCounterKey(scope))
              && SameEntry(entry, RateGrown(entry, policy, scopes, tokens, now), TokenCounterKey(scope))
  {
    hide RequestCounterKey, TokenCounterKey, Incremented, Expires, SameEntry, Positive, RequestGrown, TokenGrown, RatesExpire;
    if scopes == [] {
      NothingGrown(entry, policy, tokens, now);
    } else {
      var init, last := scopes[..|scopes| - 1], scopes[|scopes| - 1];
      RateGrownExpires(entry, policy, init, tokens, now);
      assert scopes == init + [last];
      OneScopeExpires(entry, RateGrown(entry, policy, init, tokens, now), policy, init, last, tokens, now);
    }
  }

  lemma NothingGrown(entry: Store, policy: Policy, tokens: nat, now: Time)
    requires Positive(entry)
    ensures RatesExpire(entry, entry, policy, [], tokens, now)
    ensures forall key :: SameEntry(entry, entry, key)
  {
  }

  lemma OneScopeExpires(entry: Store, store: Store, policy: Policy, init: seq<LimitScope>, last: LimitScope, tokens: nat, now: Time)
    requires Positive(store) && RatesExpire(entry, store, policy, init, tokens, now)
    requires forall scope: LimitScope :: scope !in init ==>
               SameEntry(entry, store, RequestCounterKey(scope)) && SameEntry(entry, store, TokenCounterKey(scope))
    ensures var after := TokenGrown(RequestGrown(store, policy, last, now), policy, last, tokens, now);
            && RatesExpire(entry, after, policy, init + [last], tokens, now) && Positive(after)
            && forall scope: LimitScope :: scope !in init + [last] ==>
                 SameEntry(entry, after, RequestCounterKey(scope)) && SameEntry(entry, after, TokenCounterKey(scope))
  {
    hide RequestCounterKey, TokenCounterKey, Expires, SameEntry, Incremented, Positive;
    var mid := RequestGrown(store, policy, last, now);
    var after := TokenGrown(mid, policy, last, tokens, now);
    GrownPositive(store, policy, last, tokens, now);
    forall scope: LimitScope
      ensures scope !in init + [last] ==>
                SameEntry(entry, after, RequestCounterKey(scope)) && SameEntry(entry, after, TokenCounterKey(scope))
      ensures scope in init + [last] && policy.requestsPerWindow != 0 ==>
                Expires(entry, after, RequestCounterKey(scope), policy.windowSeconds, now)
      ensures scope in init + [last] && policy.tokensPerWindow != 0 && tokens != 0 ==>
                Expires(entry, after, TokenCounterKey(scope), policy.windowSeconds, now)
    {
      OneKeyExpires(entry, store, policy, init, last, tokens, now, scope);
    }
  }

  lemma GrownPositive(store: Store, policy: Policy, scope: LimitScope, tokens: nat, now: Time)
    requires Positive(store)
    ensures Positive(RequestGrown(store, policy, scope, now))
    ensures Positive(TokenGrown(RequestGrown(store, policy, scope, now), policy, scope, tokens, now))
  {
    hide RequestCounterKey, TokenCounterKey;
  }

  lemma OneKeyExpires(entry: Store, store: Store, policy: Policy, init: seq<LimitScope>, last: LimitScope, tokens: nat, now: Time,
                      scope: LimitScope)
    requires Positive(store) && RatesExpire(entry, store, policy, init, tokens, now)
    requires scope !in init ==> SameEntry(entry, store, RequestCounterKey(scope)) && SameEntry(entry, store, TokenCounterKey(scope))
    ensures var after := TokenGrown(RequestGrown(store, policy, last, now), policy, last, tokens, now);
            && (scope !in init + [last] ==>
                  SameEntry(entry, after, RequestCounterKey(scope)) && SameEntry(entry, after, TokenCounterKey(scope)))
            && (scope in init + [last] && policy.requestsPerWindow != 0 ==>
                  Expires(entry, after, RequestCounterKey(scope), policy.windowSeconds, now))
            && (scope in init + [last] && policy.tokensPerWindow != 0 && tokens != 0 ==>
                  Expires(entry, after, TokenCounterKey(scope), policy.windowSeconds, now))
  {
    hide RequestCounterKey, TokenCounterKey, ConcurrencyCounterKey, Incremented, Expires, SameEntry, Positive;
    KeysAreDistinct(last, scope);
    KeysAreDistinct(scope, last);
    GrownPositive(store, policy, last, tokens, now);
    var mid, done := RequestGrown(store, policy, last, now), scope in init;
    var all := scope in init + [last];
    if policy.requestsPerWindow != 0 || !done {
      KeyGrows(entry, store, RequestCounterKey(last), policy.windowSeconds, 1, now, RequestCounterKey(scope), done);
      KeyGrows(entry, mid, TokenCounterKey(last), policy.windowSeconds, tokens, now, RequestCounterKey(scope),
               policy.requestsPerWindow != 0 && all);
    }
    if policy.CountsTokens(tokens) || !done {
      KeyGrows(entry, store, RequestCounterKey(last), policy.windowSeconds, 1, now, TokenCounterKey(scope), done);
      KeyGrows(entry, mid, TokenCounterKey(last), policy.windowSeconds, tokens, now, TokenCounterKey(scope), done);
    }
  }

  /** What an increment of `grown` does to the expiry of `key`, which has been made or not. */
  lemma KeyGrows(entry: Store, store: Store, grown: string, seconds: nat, amount: nat, now: Time, key: string, made: bool)
    requires Positive(store) && if made then Expires(entry, store, key, seconds, now) else SameEntry(entry, store, key)
    ensures var after := Incremented(store, grown, seconds, amount, now);
            amount > 0 ==>
              if made || key == grown then Expires(entry, after, key, seconds, now) else SameEntry(entry, after, key)
  {
  }

  /** Slots on top leave the rate counters as they are. */
  lemma RatesExpireOn(entry: Store, policy: Policy, scopes: seq<LimitScope>, tokens: nat, now: Time, store: Store, acquired: seq<string>)
    requires Positive(entry) && acquired == LeaseKeys(policy, scopes)
    requires On(RateGrown(entry, policy, scopes, tokens, now), store, acquired)
    ensures RatesExpire(entry, store, policy, scopes, tokens, now)
  {
    hide RequestCounterKey, TokenCounterKey, ConcurrencyCounterKey, RateGrown, LeaseKeys, Value;
    RateGrownExpires(entry, policy, scopes, tokens, now);
  }

  lemma NothingLeftOver(store: Store, policy: Policy, scopes: seq<LimitScope>)
    ensures forall failed: nat :: LeftOver(store, policy, scopes, store, multiset{}, failed)
  {
  }

  lemma BasesKeepSlots(entry: Store, policy: Policy, scopes: seq<LimitScope>, i: nat, tokens: nat, now: Time)
    requires i < |scopes|
    ensures SameSlotCounters(entry, RateGrown(entry, policy, scopes[..i], tokens, now))
    ensures SameSlotCounters(entry, RequestGrown(RateGrown(entry, policy, scopes[..i], tokens, now), policy, scopes[i], now))
    ensures SameSlotCounters(entry, RateGrown(entry, policy, scopes[..i + 1], tokens, now))
  {
    hide RequestCounterKey, TokenCounterKey, ConcurrencyCounterKey, Incremented, Value, SameEntry, RateGrown;
    var visited := RateGrown(entry, policy, scopes[..i], tokens, now);
    forall scope: LimitScope
      ensures SameEntry(entry, visited, ConcurrencyCounterKey(scope))
      ensures SameEntry(entry, RequestGrown(visited, policy, scopes[i], now), ConcurrencyCounterKey(scope))
      ensures SameEntry(entry, RateGrown(entry, policy, scopes[..i + 1], tokens, now), ConcurrencyCounterKey(scope))
    {
      RateGrownCounts(entry, policy, scopes[..i], tokens, now, scope);
      RateGrownCounts(entry, policy, scopes[..i + 1], tokens, now, scope);
      KeysAreDistinct(scopes[i], scope);
      IncrementedCounts(visited, RequestCounterKey(scopes[i]), policy.windowSeconds, 1, now, ConcurrencyCounterKey(scope));
      SameEntryGrown(entry, visited, RequestGrown(visited, policy, scopes[i], now), ConcurrencyCounterKey(scope));
    }
  }

  lemma LeaseKeysPrefix(policy: Policy, scopes: seq<LimitScope>, i: nat)
    requires i <= |scopes|
    ensures multiset(LeaseKeys(policy, scopes[..i])) <= multiset(LeaseKeys(policy, scopes))
  {
    var all := LeaseKeys(policy, scopes);
    if policy.concurrentRequests != 0 {
      assert LeaseKeys(policy, scopes[..i]) == all[..i];
      assert all == all[..i] + all[i..];
    }
  }

  /** A roll-back of `returned` leaves the other held slots. */
  lemma LeavesOver(entry: Store, policy: Policy, scopes: seq<LimitScope>, i: nat, base: Store, store: Store,
                   held: seq<string>, returned: seq<string>, failed: int) returns (leaked: multiset<string>)
    requires i < |scopes| && SameSlotCounters(entry, base) && On(base, store, held)
    requires held == LeaseKeys(policy, scopes[..i]) || held == LeaseKeys(policy, scopes[..i + 1])
    requires multiset(returned) <= multiset(held) && |held| - |returned| <= failed
    ensures LeftOver(entry, policy, scopes, ReleasedAll(store, returned), leaked, failed)
  {
    hide LeaseKeys, ReleasedAll, ConcurrencyCounterKey, SameEntry, Holds, Value, Positive;
    leaked := multiset(held) - multiset(returned);
    LeaseKeysPrefix(policy, scopes, i);
    LeaseKeysPrefix(policy, scopes, i + 1);
    ReleasedAllHolds(base, store, multiset(held), returned);
    var after := ReleasedAll(store, returned);
    forall scope: LimitScope ensures SlotsLeft(entry, after, leaked, ConcurrencyCounterKey(scope)) {
      assert SameEntry(entry, base, ConcurrencyCounterKey(scope));
      HoldsSlots(entry, base, after, leaked, ConcurrencyCounterKey(scope));
    }
  }

  lemma HoldsSlots(entry: Store, base: Store, store: Store, leaked: multiset<string>, key: string)
    requires Holds(base, store, leaked) && SameEntry(entry, base, key)
    ensures SlotsLeft(entry, store, leaked, key)
  {
  }

  /** The slots of `keys` have been given back, in that order. */
  function ReleasedAll(store: Store, keys: seq<string>): Store {
    if keys == [] then store else Released(ReleasedAll(store, keys[..|keys| - 1]), keys[|keys| - 1])
  }

  lemma {:induction false} ReleasedAllHolds(base: Store, store: Store, held: multiset<string>, keys: seq<string>)
    requires Positive(base) && Holds(base, store, held) && multiset(keys) <= held
    ensures Holds(base, ReleasedAll(store, keys), held - multiset(keys))
  {
    hide Holds, Positive, Released;
    if keys == [] {
      assert held - multiset(keys) == held;
    } else {
      var k := |keys| - 1;
      PrefixCounts(keys, k);
      assert keys[..k + 1] == keys;
      ReleasedAllHolds(base, store, held, keys[..k]);
      ReleaseHolds(base, ReleasedAll(store, keys[..k]), held - multiset(keys[..k]), keys[k]);
      assert held - multiset(keys[..k]) - multiset{keys[k]} == held - multiset(keys);
    }
  }

  // ----- The exact condition -----

  /** Every scope has room for all its occurrences in the list. */
  ghost predicate Admits(store: Store, policy: Policy, scopes: seq<LimitScope>, tokens: nat) {
    forall scope <- scopes :: HasRoom(store, policy, scope, multiset(scopes)[scope], tokens)
  }

  predicate HasRoom(store: Store, policy: Policy, scope: LimitScope, times: nat, tokens: nat) {
    && (policy.requestsPerWindow == 0 || Value(store, RequestCounterKey(scope)) + times <= policy.requestsPerWindow)
    && (policy.CountsTokens(tokens) ==> Value(store, TokenCounterKey(scope)) + times * tokens <= policy.tokensPerWindow)
    && (policy.concurrentRequests == 0 || Value(store, ConcurrencyCounterKey(scope)) + times <= policy.concurrentRequests)
  }

  /** A refusal: no slot is taken, and exactly the rate counters of the visited scopes have grown. */
  ghost predicate Refused(entry: Store, policy: Policy, scopes: seq<LimitScope>, tokens: nat, now: Time,
                          refusal: Refusal, store: Store, error: AppError) {
    match refusal
    case NotRefused => false
    case ByRequests(i) =>
      i < |scopes| && error == Exceeded("requests_per_window", scopes[i])
      && store == RequestGrown(RateGrown(entry, policy, scopes[..i], tokens, now), policy, scopes[i], now)
    case ByTokens(i) =>
      i < |scopes| && error == Exceeded("tokens_per_window", scopes[i])
      && store == RateGrown(entry, policy, scopes[..i + 1], tokens, now)
    case BySlots(i) =>
      i < |scopes| && error == Exceeded("concurrent_requests", scopes[i])
      && store == RateGrown(entry, policy, scopes[..i + 1], tokens, now)
  }

  /** `store` is `base` with exactly the slots `keys` on top. */
  ghost predicate On(base: Store, store: Store, keys: seq<string>) {
    Positive(base) && Holds(base, store, multiset(keys))
  }

  lemma OnHolds(base: Store, store: Store, keys: seq<string>)
    requires On(base, store, keys)
    ensures Holds(base, store, multiset(keys)) && Positive(store)
  {
  }

  /** From `before` to `after` a scope was counted `times`: requests by that, tokens by that times the
      estimate, slots not at all. */
  predicate CountsGrown(before: Store, after: Store, policy: Policy, scope: LimitScope, times: nat, tokens: nat) {
    && Value(after, RequestCounterKey(scope)) ==
       Value(before, RequestCounterKey(scope)) + (if policy.requestsPerWindow == 0 then 0 else times)
    && Value(after, TokenCounterKey(scope)) ==
       Value(before, TokenCounterKey(scope)) + (if policy.CountsTokens(tokens) then times * tokens else 0)
    && SameEntry(before, after, ConcurrencyCounterKey(scope))
  }

  lemma CountsGrownAgain(a: Store, b: Store, c: Store, policy: Policy, scope: LimitScope, more: nat, times: nat, tokens: nat)
    requires CountsGrown(a, b, policy, scope, times, tokens) && CountsGrown(b, c, policy, scope, more, tokens) && more <= 1
    ensures CountsGrown(a, c, policy, scope, times + more, tokens)
  {
    hide RequestCounterKey, TokenCounterKey, ConcurrencyCounterKey, Value, SameEntry;
    SameEntryTransitive(a, b, c, ConcurrencyCounterKey(scope));
    assert (times + 1) * tokens == times * tokens + tokens;
  }

  /** What growing the rate counters does to each counter: every scope is counted by its multiplicity. */
  lemma {:induction false} RateGrownCounts(store: Store, policy: Policy, scopes: seq<LimitScope>, tokens: nat, now: Time, scope: LimitScope)
    ensures CountsGrown(store, RateGrown(store, policy, scopes, tokens, now), policy, scope, multiset(scopes)[scope], tokens)
  {
    hide *;
    if scopes == [] {
      NotCounted(store, policy, scope, tokens, now);
    } else {
      var init, last := scopes[..|scopes| - 1], scopes[|scopes| - 1];
      OneMoreCounted(store, policy, scopes, tokens, now, scope);
      RateGrownCounts(store, policy, init, tokens, now, scope);
      var before := RateGrown(store, policy, init, tokens, now);
      OneScopeCounts(before, policy, last, tokens, now, scope);
      CountsGrownAgain(store, before, RateGrown(store, policy, scopes, tokens, now), policy, scope,
                       if scope == last then 1 else 0, multiset(init)[scope], tokens);
    }
  }

  lemma NotCounted(store: Store, policy: Policy, scope: LimitScope, tokens: nat, now: Time)
    ensures CountsGrown(store, RateGrown(store, policy, [], tokens, now), policy, scope, 0, tokens)
  {
    hide RequestCounterKey, TokenCounterKey, ConcurrencyCounterKey, Value;
    assert 0 * tokens == 0;
  }

  lemma OneMoreCounted(store: Store, policy: Policy, scopes: seq<LimitScope>, tokens: nat, now: Time, scope: LimitScope)
    requires scopes != []
    ensures var init, last := scopes[..|scopes| - 1], scopes[|scopes| - 1];
            && RateGrown(store, policy, scopes, tokens, now) ==
               TokenGrown(RequestGrown(RateGrown(store, policy, init, tokens, now), policy, last, now), policy, last, tokens, now)
            && multiset(scopes)[scope] == multiset(init)[scope] + (if scope == last then 1 else 0)
  {
    hide RequestGrown, TokenGrown;
    PrefixCounts(scopes, |scopes| - 1);
    assert scopes[..|scopes|] == scopes;
  }

  lemma OneScopeCounts(store: Store, policy: Policy, visited: LimitScope, tokens: nat, now: Time, scope: LimitScope)
    ensures CountsGrown(store, TokenGrown(RequestGrown(store, policy, visited, now), policy, visited, tokens, now),
                        policy, scope, if scope == visited then 1 else 0, tokens)
  {
    hide RequestCounterKey, TokenCounterKey, ConcurrencyCounterKey, Incremented, Value;
    KeysAreDistinct(scope, visited);
    KeysAreDistinct(visited, scope);
    var mid := RequestGrown(store, policy, visited, now);
    forall key ensures Value(mid, key) == Value(store, key) +
        (if policy.requestsPerWindow != 0 && key == RequestCounterKey(visited) then 1 else 0) {
      IncrementedCounts(store, RequestCounterKey(visited), policy.windowSeconds, 1, now, key);
    }
    IncrementedCounts(store, RequestCounterKey(visited), policy.windowSeconds, 1, now, ConcurrencyCounterKey(scope));
    IncrementedCounts(mid, TokenCounterKey(visited), policy.windowSeconds, tokens, now, RequestCounterKey(scope));
    IncrementedCounts(mid, TokenCounterKey(visited), policy.windowSeconds, tokens, now, TokenCounterKey(scope));
    IncrementedCounts(mid, TokenCounterKey(visited), policy.windowSeconds, tokens, now, ConcurrencyCounterKey(scope));
    assert 1 * tokens == tokens && 0 * tokens == 0;
  }

  lemma IncrementedCounts(store: Store, key: string, ttl: nat, amount: nat, now: Time, other: string)
    ensures Value(Incremented(store, key, ttl, amount, now), other) == Value(store, other) + if other == key then amount else 0
    ensures other != key ==> SameEntry(store, Incremented(store, key, ttl, amount, now), other)
  {
  }

  lemma SameValue(a: Store, b: Store, key: string)
    requires SameEntry(a, b, key)
    ensures Value(a, key) == Value(b, key)
  {
  }

  lemma SameEntryTransitive(a: Store, b: Store, c: Store, key: string)
    requires SameEntry(a, b, key) && SameEntry(b, c, key)
    ensures SameEntry(a, c, key)
  {
  }

  predicate SameEntry(before: Store, after: Store, key: string) {
    if key in before then key in after && after[key] == before[key] else key !in after
  }

  // ----- One scope of the loop -----

  lemma {:induction false} LeaseKeyCounts(policy: Policy, scopes: seq<LimitScope>, scope: LimitScope)
    ensures var held := multiset(LeaseKeys(policy, scopes));
            && held[RequestCounterKey(scope)] == 0 && held[TokenCounterKey(scope)] == 0
            && held[ConcurrencyCounterKey(scope)] == if policy.concurrentRequests == 0 then 0 else multiset(scopes)[scope]
  {
    hide RequestCounterKey, TokenCounterKey, ConcurrencyCounterKey;
    if policy.concurrentRequests != 0 && scopes != [] {
      var k := |scopes| - 1;
      LeaseKeysSnoc(policy, scopes, k);
      assert scopes[..k + 1] == scopes;
      PrefixCounts(scopes, k);
      LeaseKeyCounts(policy, scopes[..k], scope);
      KeysAreDistinct(scope, scopes[k]);
    }
  }

  lemma LeaseKeysSnoc(policy: Policy, scopes: seq<LimitScope>, i: nat)
    requires i < |scopes|
    ensures LeaseKeys(policy, scopes[..i + 1]) ==
            LeaseKeys(policy, scopes[..i]) + if policy.concurrentRequests == 0 then [] else [ConcurrencyCounterKey(scopes[i])]
  {
  }

  lemma NothingVisited(store: Store, policy: Policy, scopes: seq<LimitScope>, tokens: nat, now: Time)
    requires Positive(store)
    ensures LeaseKeys(policy, scopes[..0]) == []
    ensures On(RateGrown(store, policy, scopes[..0], tokens, now), store, [])
    ensures Admits(store, policy, scopes[..0], tokens)
  {
  }

  lemma {:induction false} NothingToAcquire(store: Store, policy: Policy, scopes: seq<LimitScope>, tokens: nat, now: Time)
    requires Positive(store) && (policy.IsDisabled() || scopes == [])
    ensures LeaseKeys(policy, scopes) == [] && RateGrown(store, policy, scopes, tokens, now) == store
    ensures Holds(store, store, multiset([])) && Admits(store, policy, scopes, tokens)
  {
    if scopes != [] {
      NothingToAcquire(store, policy, scopes[..|scopes| - 1], tokens, now);
    }
  }

  lemma RollbackRestores(base: Store, store: Store, keys: seq<string>)
    requires On(base, store, keys)
    ensures ReleasedAll(store, keys) == base
  {
    hide ReleasedAll;
    ReleasedAllHolds(base, store, multiset(keys), keys);
    assert multiset(keys) - multiset(keys) == multiset{};
    HoldsNothing(base, ReleasedAll(store, keys));
  }

  lemma RequestStep(entry: Store, policy: Policy, scopes: seq<LimitScope>, i: nat, tokens: nat, now: Time, store: Store)
    requires i < |scopes| && On(RateGrown(entry, policy, scopes[..i], tokens, now), store, LeaseKeys(policy, scopes[..i]))
    ensures On(RequestGrown(RateGrown(entry, policy, scopes[..i], tokens, now), policy, scopes[i], now),
               RequestGrown(store, policy, scopes[i], now), LeaseKeys(policy, scopes[..i]))
    ensures policy.requestsPerWindow != 0 ==>
              Value(RequestGrown(store, policy, scopes[i], now), RequestCounterKey(scopes[i])) ==
              Value(entry, RequestCounterKey(scopes[i])) + multiset(scopes[..i + 1])[scopes[i]]
  {
    hide RequestCounterKey, TokenCounterKey, ConcurrencyCounterKey, RateGrown, LeaseKeys, Positive;
    var base, key := RateGrown(entry, policy, scopes[..i], tokens, now), RequestCounterKey(scopes[i]);
    LeaseKeyCounts(policy, scopes[..i], scopes[i]);
    RateGrownCounts(entry, policy, scopes[..i], tokens, now, scopes[i]);
    PrefixCounts(scopes, i);
    RateHolds(base, store, multiset(LeaseKeys(policy, scopes[..i])), key, policy.windowSeconds, 1, now);
    assert Value(store, key) == Value(base, key);
  }

  lemma TokenStep(entry: Store, policy: Policy, scopes: seq<LimitScope>, i: nat, tokens: nat, now: Time, store: Store)
    requires i < |scopes|
    requires On(RequestGrown(RateGrown(entry, policy, scopes[..i], tokens, now), policy, scopes[i], now), store,
                LeaseKeys(policy, scopes[..i]))
    ensures On(RateGrown(entry, policy, scopes[..i + 1], tokens, now), TokenGrown(store, policy, scopes[i], tokens, now),
               LeaseKeys(policy, scopes[..i]))
    ensures policy.CountsTokens(tokens) ==>
              Value(TokenGrown(store, policy, scopes[i], tokens, now), TokenCounterKey(scopes[i])) ==
              Value(entry, TokenCounterKey(scopes[i])) + multiset(scopes[..i + 1])[scopes[i]] * tokens
  {
    hide RequestCounterKey, TokenCounterKey, ConcurrencyCounterKey, LeaseKeys, Positive, RequestGrown;
    var base, key := RequestGrown(RateGrown(entry, policy, scopes[..i], tokens, now), policy, scopes[i], now), TokenCounterKey(scopes[i]);
    assert scopes[..i + 1][..i] == scopes[..i];
    LeaseKeyCounts(policy, scopes[..i], scopes[i]);
    RateGrownCounts(entry, policy, scopes[..i + 1], tokens, now, scopes[i]);
    if policy.CountsTokens(tokens) {
      RateHolds(base, store, multiset(LeaseKeys(policy, scopes[..i])), key, policy.windowSeconds, tokens, now);
      assert Value(store, key) == Value(base, key);
    }
  }

  lemma SlotStep(entry: Store, policy: Policy, scopes: seq<LimitScope>, i: nat, tokens: nat, now: Time, store: Store)
    requires i < |scopes| && On(RateGrown(entry, policy, scopes[..i + 1], tokens, now), store, LeaseKeys(policy, scopes[..i]))
    ensures var base, key := RateGrown(entry, policy, scopes[..i + 1], tokens, now), ConcurrencyCounterKey(scopes[i]);
            var taken := Incremented(store, key, policy.leaseSeconds, 1, now);
            if policy.concurrentRequests == 0 then LeaseKeys(policy, scopes[..i + 1]) == LeaseKeys(policy, scopes[..i])
            else
              && LeaseKeys(policy, scopes[..i + 1]) == LeaseKeys(policy, scopes[..i]) + [key]
              && On(base, taken, LeaseKeys(policy, scopes[..i + 1]))
              && On(base, Released(taken, key), LeaseKeys(policy, scopes[..i]))
              && Value(taken, key) == Value(entry, key) + multiset(scopes[..i + 1])[scopes[i]]
  {
    hide RequestCounterKey, TokenCounterKey, ConcurrencyCounterKey, RateGrown, LeaseKeys, Positive, Incremented, Released, Holds, Value;
    var base, key := RateGrown(entry, policy, scopes[..i + 1], tokens, now), ConcurrencyCounterKey(scopes[i]);
    LeaseKeysSnoc(policy, scopes, i);
    if policy.concurrentRequests != 0 {
      var taken := Incremented(store, key, policy.leaseSeconds, 1, now);
      var held := multiset(LeaseKeys(policy, scopes[..i]));
      LeaseKeyCounts(policy, scopes[..i + 1], scopes[i]);
      RateGrownCounts(entry, policy, scopes[..i + 1], tokens, now, scopes[i]);
      SameValue(entry, base, key);
      AcquireHolds(base, store, held, key, policy.leaseSeconds, now);
      ReleaseHolds(base, taken, held + multiset{key}, key);
      assert held + multiset{key} - multiset{key} == held;
      assert multiset(LeaseKeys(policy, scopes[..i + 1])) == held + multiset{key};
      HoldsCounts(base, taken, held + multiset{key}, key);
    }
  }

  /** A counter over its limit after some of the scopes leaves no room for all of them. */
  lemma NoRoom(entry: Store, policy: Policy, scopes: seq<LimitScope>, i: nat, tokens: nat)
    requires i < |scopes| && !HasRoom(entry, policy, scopes[i], multiset(scopes[..i + 1])[scopes[i]], tokens)
    ensures !Admits(entry, policy, scopes, tokens)
  {
    hide HasRoom;
    assert scopes == scopes[..i + 1] + scopes[i + 1..];
    assert multiset(scopes[..i + 1])[scopes[i]] <= multiset(scopes)[scopes[i]];
    LessRoom(entry, policy, scopes[i], multiset(scopes[..i + 1])[scopes[i]], multiset(scopes)[scopes[i]], tokens);
    assert scopes[i] in scopes;
  }

  lemma LessRoom(entry: Store, policy: Policy, scope: LimitScope, some: nat, all: nat, tokens: nat)
    requires some <= all
    ensures HasRoom(entry, policy, scope, all, tokens) ==> HasRoom(entry, policy, scope, some, tokens)
  {
    hide RequestCounterKey, TokenCounterKey, ConcurrencyCounterKey, Value;
    assert all * tokens - some * tokens == (all - some) * tokens >= 0;
  }

  lemma AdmitsStep(entry: Store, policy: Policy, scopes: seq<LimitScope>, i: nat, tokens: nat)
    requires i < |scopes| && Admits(entry, policy, scopes[..i], tokens)
    requires HasRoom(entry, policy, scopes[i], multiset(scopes[..i + 1])[scopes[i]], tokens)
    ensures Admits(entry, policy, scopes[..i + 1], tokens)
  {
    hide HasRoom;
    PrefixCounts(scopes, i);
    assert scopes[..i + 1] == scopes[..i] + [scopes[i]];
    assert forall scope :: scope in scopes[..i] && scope != scopes[i] ==> multiset(scopes[..i + 1])[scope] == multiset(scopes[..i])[scope];
  }

  lemma RequestRefused(entry: Store, policy: Policy, scopes: seq<LimitScope>, i: nat, tokens: nat, now: Time, store: Store)
    requires i < |scopes| && 0 < policy.requestsPerWindow
    requires On(RequestGrown(RateGrown(entry, policy, scopes[..i], tokens, now), policy, scopes[i], now), store,
                LeaseKeys(policy, scopes[..i]))
    requires policy.requestsPerWindow < Value(entry, RequestCounterKey(scopes[i])) + multiset(scopes[..i + 1])[scopes[i]]
    ensures !Admits(entry, policy, scopes, tokens)
    ensures Refused(entry, policy, scopes, tokens, now, ByRequests(i), ReleasedAll(store, LeaseKeys(policy, scopes[..i])),
                    Exceeded("requests_per_window", scopes[i]))
  {
    hide On, RequestGrown, RateGrown, LeaseKeys, ReleasedAll, Value, Exceeded, Admits,
         RequestCounterKey, TokenCounterKey, ConcurrencyCounterKey;
    NoRoom(entry, policy, scopes, i, tokens);
    RollbackRestores(RequestGrown(RateGrown(entry, policy, scopes[..i], tokens, now), policy, scopes[i], now), store,
                     LeaseKeys(policy, scopes[..i]));
  }

  lemma LaterRefused(entry: Store, policy: Policy, scopes: seq<LimitScope>, i: nat, tokens: nat, now: Time, store: Store)
    requires i < |scopes| && On(RateGrown(entry, policy, scopes[..i + 1], tokens, now), store, LeaseKeys(policy, scopes[..i]))
    requires var times := multiset(scopes[..i + 1])[scopes[i]];
             || (policy.CountsTokens(tokens) && policy.tokensPerWindow < Value(entry, TokenCounterKey(scopes[i])) + times * tokens)
             || 0 < policy.concurrentRequests < Value(entry, ConcurrencyCounterKey(scopes[i])) + times
    ensures !Admits(entry, policy, scopes, tokens)
    ensures Refused(entry, policy, scopes, tokens, now, ByTokens(i), ReleasedAll(store, LeaseKeys(policy, scopes[..i])),
                    Exceeded("tokens_per_window", scopes[i]))
    ensures Refused(entry, policy, scopes, tokens, now, BySlots(i), ReleasedAll(store, LeaseKeys(policy, scopes[..i])),
                    Exceeded("concurrent_requests", scopes[i]))
  {
    RefusedLater(entry, policy, scopes, i, tokens, now);
    hide Refused;
    hide On, RateGrown, LeaseKeys, ReleasedAll, Value, RequestCounterKey, TokenCounterKey, ConcurrencyCounterKey, Admits;
    NoRoom(entry, policy, scopes, i, tokens);
    RollbackRestores(RateGrown(entry, policy, scopes[..i + 1], tokens, now), store, LeaseKeys(policy, scopes[..i]));
  }

  lemma RefusedLater(entry: Store, policy: Policy, scopes: seq<LimitScope>, i: nat, tokens: nat, now: Time)
    requires i < |scopes|
    ensures Refused(entry, policy, scopes, tokens, now, ByTokens(i), RateGrown(entry, policy, scopes[..i + 1], tokens, now),
                    Exceeded("tokens_per_window", scopes[i]))
    ensures Refused(entry, policy, scopes, tokens, now, BySlots(i), RateGrown(entry, policy, scopes[..i + 1], tokens, now),
                    Exceeded("concurrent_requests", scopes[i]))
  {
  }

  /** A scope that passed all three checks had room for its occurrences so far. */
  lemma RoomFound(entry: Store, policy: Policy, scopes: seq<LimitScope>, i: nat, tokens: nat)
    requires i < |scopes| && Admits(entry, policy, scopes[..i], tokens)
    requires var times := multiset(scopes[..i + 1])[scopes[i]];
             && (policy.requestsPerWindow == 0 || Value(entry, RequestCounterKey(scopes[i])) + times <= policy.requestsPerWindow)
             && (policy.CountsTokens(tokens) ==> Value(entry, TokenCounterKey(scopes[i])) + times * tokens <= policy.tokensPerWindow)
             && (policy.concurrentRequests == 0 || Value(entry, ConcurrencyCounterKey(scopes[i])) + times <= policy.concurrentRequests)
    ensures Admits(entry, policy, scopes[..i + 1], tokens)
  {
    hide Admits, Value, RequestCounterKey, TokenCounterKey, ConcurrencyCounterKey;
    AdmitsStep(entry, policy, scopes, i, tokens);
  }

  function VisitedForRequests(refusal: Refusal): nat {
    match refusal
    case NotRefused => 0
    case ByRequests(i) => i + 1
    case ByTokens(i) => i + 1
    case BySlots(i) => i + 1
  }

  function VisitedForTokens(refusal: Refusal): nat {
    match refusal
    case ByRequests(i) => i
    case _ => VisitedForRequests(refusal)
  }

  /** Nothing: after a refusal every slot counter is as at entry, with its expiry, while the
      request and token counters of the visited scopes have grown, by multiplicity. */
  lemma RefusalTakesNothing(entry: Store, policy: Policy, scopes: seq<LimitScope>, tokens: nat, now: Time,
                            refusal: Refusal, store: Store, error: AppError, scope: LimitScope)
    requires Refused(entry, policy, scopes, tokens, now, refusal, store, error)
    ensures error.LimitExceeded?
    ensures SameEntry(entry, store, ConcurrencyCounterKey(scope))
    ensures VisitedForTokens(refusal) <= VisitedForRequests(refusal) <= |scopes|
    ensures Value(store, RequestCounterKey(scope)) == Value(entry, RequestCounterKey(scope)) +
              if policy.requestsPerWindow == 0 then 0 else multiset(scopes[..VisitedForRequests(refusal)])[scope]
    ensures Value(store, TokenCounterKey(scope)) == Value(entry, TokenCounterKey(scope)) +
              if policy.CountsTokens(tokens) then multiset(scopes[..VisitedForTokens(refusal)])[scope] * tokens else 0
  {
    hide RateGrown, Incremented, Value, SameEntry, RequestCounterKey, TokenCounterKey, ConcurrencyCounterKey, LimitScope.KeyPart;
    RateGrownCounts(entry, policy, scopes[..VisitedForTokens(refusal)], tokens, now, scope);
    if refusal.ByRequests? {
      var i := refusal.index;
      PrefixCounts(scopes, i);
      var before, key := RateGrown(entry, policy, scopes[..i], tokens, now), RequestCounterKey(scopes[i]);
      IncrementedCounts(before, key, policy.windowSeconds, 1, now, RequestCounterKey(scope));
      IncrementedCounts(before, key, policy.windowSeconds, 1, now, TokenCounterKey(scope));
      IncrementedCounts(before, key, policy.windowSeconds, 1, now, ConcurrencyCounterKey(scope));
      KeysAreDistinct(scopes[i], scope);
      SameEntryGrown(entry, before, store, ConcurrencyCounterKey(scope));
    }
  }

  lemma SameEntryGrown(entry: Store, before: Store, store: Store, key: string)
    requires SameEntry(entry, before, key)
    ensures SameEntry(before, store, key) || store == before ==> SameEntry(entry, store, key)
  {
  }

  /** All: after a success every slot counter has risen by the multiplicity of its scope and is
      within the limit. */
  lemma SuccessTakesAll(entry: Store, policy: Policy, scopes: seq<LimitScope>, tokens: nat, now: Time, store: Store, scope: LimitScope)
    requires Admits(entry, policy, scopes, tokens)
    requires Holds(RateGrown(entry, policy, scopes, tokens, now), store, multiset(LeaseKeys(policy, scopes)))
    ensures Value(store, ConcurrencyCounterKey(scope)) == Value(entry, ConcurrencyCounterKey(scope)) +
              if policy.concurrentRequests == 0 then 0 else multiset(scopes)[scope]
    ensures policy.concurrentRequests != 0 && scope in scopes ==>
              Value(store, ConcurrencyCounterKey(scope)) <= policy.concurrentRequests
  {
    hide RateGrown, LeaseKeys, Holds, Value, SameEntry, RequestCounterKey, TokenCounterKey, ConcurrencyCounterKey;
    var base, key := RateGrown(entry, policy, scopes, tokens, now), ConcurrencyCounterKey(scope);
    RateGrownCounts(entry, policy, scopes, tokens, now, scope);
    SameValue(entry, base, key);
    LeaseKeyCounts(policy, scopes, scope);
    HoldsCounts(base, store, multiset(LeaseKeys(policy, scopes)), key);
  }

  /** Releasing a lease undoes its slots and nothing else: the rate counters stay grown. */
  lemma ReleaseUndoesSlots(entry: Store, policy: Policy, scopes: seq<LimitScope>, tokens: nat, now: Time, store: Store)
    requires Positive(entry)
    requires Holds(RateGrown(entry, policy, scopes, tokens, now), store, multiset(LeaseKeys(policy, scopes)))
    ensures ReleasedAll(store, LeaseKeys(policy, scopes)) == RateGrown(entry, policy, scopes, tokens, now)
  {
    hide RateGrown, LeaseKeys, Holds, ReleasedAll, Positive;
    RateGrownPositive(entry, policy, scopes, tokens, now);
    RollbackRestores(RateGrown(entry, policy, scopes, tokens, now), store, LeaseKeys(policy, scopes));
  }

  lemma {:induction false} RateGrownPositive(store: Store, policy: Policy, scopes: seq<LimitScope>, tokens: nat, now: Time)
    requires Positive(store)
    ensures Positive(RateGrown(store, policy, scopes, tokens, now))
  {
    hide RequestCounterKey, TokenCounterKey;
    if scopes != [] {
      RateGrownPositive(store, policy, scopes[..|scopes| - 1], tokens, now);
    }
  }

  lemma PrefixCounts<T>(s: seq<T>, i: nat)
    requires i < |s|
    ensures multiset(s[..i + 1]) == multiset(s[..i]) + multiset{s[i]}
    ensures multiset(s[..i])[s[i]] < multiset(s)[s[i]]
  {
    assert s[..i + 1] == s[..i] + [s[i]];
    assert s == s[..i] + s[i..] && s[i..][0] == s[i];
  }
}
