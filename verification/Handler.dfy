/** The skeleton of the gateway's `chat_completions_impl`: preflight, limits, provider call,
    metering and lease release, for every outcome of each. */
module Handler {
  import opened Core
  import opened Ledger
  import opened Wallet
  import opened Billing
  import opened GatewayStream
  import Limits

  datatype ChatRequest = ChatRequest(
    origin: Origin,
    user: UserId,
    apiKey: string,
    providerConnection: string,
    price: RoutePrice,
    promptBytes: U64,
    requestedMaxTokens: Option<U64>,
    routeMaxTokens: Option<U64>,
    stream: bool)

  /** A provider's answer: the size of its text and the usage it reports, if any. */
  datatype ChatResponse = ChatResponse(contentBytes: U64, usage: Option<TokenUsage>)

  /** What a run has done, in order; each call adds its own entry. */
  datatype Effect =
    | Acquired(lease: Lease)
    | Released(lease: Lease)
    | HandedOver(lease: Lease)
    | Recorded(call: RecordCall)

  /** One call of `record_usage` and its outcome. */
  datatype RecordCall = RecordCall(usage: TokenUsage, status: nat, result: AppResult<()>)

  datatype Response = Json(status: nat) | EventStream

  function SaturatingAddU64(a: U64, b: U64): U64 {
    if a + b > U64_MAX then U64_MAX else a + b
  }

  /** Tokens estimated from bytes, four to a token, rounded up. */
  function CeilDivide(value: U64, divisor: nat): (quotient: U64)
    requires divisor > 0
    ensures (value == 0 && quotient == 0) || (quotient - 1) * divisor < value <= quotient * divisor
  {
    if value == 0 then 0 else (value - 1) / divisor + 1
  }

  function EstimateUsage(promptBytes: U64, completionBytes: U64): TokenUsage {
    var prompt, completion := CeilDivide(promptBytes, 4), CeilDivide(completionBytes, 4);
    TokenUsage(prompt, completion, SaturatingAddU64(prompt, completion), true)
  }

  function ResolveEffectiveMaxTokens(requested: Option<U64>, route: Option<U64>): (r: AppResult<Option<U64>>)
    ensures r.Failure? <==> requested.Some? && route.Some? && requested.value > route.value
    ensures r.Failure? ==> r.error.InvalidConfig?
    ensures r.Success? && route.Some? ==> r.value.Some? && r.value.value <= route.value
    ensures r.Success? && requested.Some? ==> r.value == requested
  {
    match (requested, route)
    case (Some(tokens), Some(limit)) =>
      if tokens > limit then Failure(InvalidConfig("max_tokens")) else Success(requested)
    case (Some(_), None) => Success(requested)
    case (None, _) => Success(route)
  }

  function EstimateAdmissionUsage(promptBytes: U64, maxTokens: Option<U64>): TokenUsage {
    var prompt := EstimateUsage(promptBytes, 0).promptTokens;
    var completion := maxTokens.GetOr(0);
    TokenUsage(prompt, completion, SaturatingAddU64(prompt, completion), true)
  }

  function Acquisitions(effects: seq<Effect>): seq<Lease> {
    if effects == [] then []
    else (if effects[0].Acquired? then [effects[0].lease] else []) + Acquisitions(effects[1..])
  }

  /** The leases given back or handed to a stream. */
  function Settlements(effects: seq<Effect>): seq<Lease> {
    if effects == [] then []
    else (if effects[0].Released? || effects[0].HandedOver? then [effects[0].lease] else []) + Settlements(effects[1..])
  }

  /** The metering calls. */
  function Records(effects: seq<Effect>): seq<RecordCall> {
    if effects == [] then []
    else (if effects[0].Recorded? then [effects[0].call] else []) + Records(effects[1..])
  }

  lemma Cons(effect: Effect, rest: seq<Effect>)
    ensures Acquisitions([effect] + rest) == (if effect.Acquired? then [effect.lease] else []) + Acquisitions(rest)
    ensures Settlements([effect] + rest) ==
            (if effect.Released? || effect.HandedOver? then [effect.lease] else []) + Settlements(rest)
    ensures Records([effect] + rest) == (if effect.Recorded? then [effect.call] else []) + Records(rest)
    ensures Acquisitions([]) == Settlements([]) == [] && Records([]) == []
  {
    assert ([effect] + rest)[1..] == rest;
  }

  lemma MeteredRun(lease: Lease, call: RecordCall)
    ensures var effects := [Acquired(lease), Recorded(call), Released(lease)];
            Acquisitions(effects) == Settlements(effects) == [lease] && Records(effects) == [call]
  {
    hide Acquisitions, Settlements, Records;
    Cons(Released(lease), []);
    Cons(Recorded(call), [Released(lease)]);
    Cons(Acquired(lease), [Recorded(call), Released(lease)]);
    assert [Acquired(lease)] + [Recorded(call), Released(lease)] == [Acquired(lease), Recorded(call), Released(lease)];
    assert [Recorded(call)] + [Released(lease)] == [Recorded(call), Released(lease)];
    assert [Released(lease)] + [] == [Released(lease)];
  }

  lemma ShortRuns(lease: Lease, call: RecordCall)
    ensures Acquisitions([]) == Settlements([]) == [] && Records([]) == []
    ensures Acquisitions([Recorded(call)]) == Settlements([Recorded(call)]) == [] && Records([Recorded(call)]) == [call]
    ensures var effects := [Acquired(lease), HandedOver(lease)];
            Acquisitions(effects) == Settlements(effects) == [lease] && Records(effects) == []
  {
    hide Acquisitions, Settlements, Records;
    Cons(Recorded(call), []);
    Cons(HandedOver(lease), []);
    Cons(Acquired(lease), [HandedOver(lease)]);
    assert [Recorded(call)] + [] == [Recorded(call)] && [HandedOver(lease)] + [] == [HandedOver(lease)];
    assert [Acquired(lease)] + [HandedOver(lease)] == [Acquired(lease), HandedOver(lease)];
  }

  function MeteringInput(request: ChatRequest, usage: TokenUsage, status: nat): BillingInput {
    BillingInput(request.origin.requestId, request.user, usage, status, request.price)
  }

  /** The admitted tokens of a request whose token limit is in order. */
  function Admission(request: ChatRequest): TokenUsage {
    var limit := ResolveEffectiveMaxTokens(request.requestedMaxTokens, request.routeMaxTokens);
    EstimateAdmissionUsage(request.promptBytes, if limit.Success? then limit.value else None)
  }

  function ActualUsage(request: ChatRequest, answer: ChatResponse): TokenUsage {
    answer.usage.GetOr(EstimateUsage(request.promptBytes, answer.contentBytes))
  }

  /** Tokens in numbers: a quarter of the prompt's bytes, rounded up, and these for the completion. */
  predicate IsEstimate(usage: TokenUsage, promptBytes: U64, completion: U64) {
    var prompt := (promptBytes + 3) / 4;
    && usage.promptTokens == prompt && usage.completionTokens == completion && usage.estimated
    && usage.totalTokens == if prompt + completion > U64_MAX then U64_MAX else prompt + completion
  }

  /** A request is admitted with its own token limit, else the route's, else none. */
  predicate IsAdmission(request: ChatRequest, usage: TokenUsage) {
    var requested, route := request.requestedMaxTokens, request.routeMaxTokens;
    || (requested.Some? && route.Some? && requested.value > route.value)
    || IsEstimate(usage, request.promptBytes, if requested.Some? then requested.value else if route.Some? then route.value else 0)
  }

  /** An answer is metered with the usage it reports, else with a quarter of its bytes; anything else
      with the prompt alone. */
  predicate IsMeteredUsage(request: ChatRequest, provider: AppResult<ChatResponse>, status: nat, usage: TokenUsage) {
    if status == 200 then
      && provider.Success?
      && if provider.value.usage.Some? then usage == provider.value.usage.value
         else IsEstimate(usage, request.promptBytes, (provider.value.contentBytes + 3) / 4)
    else IsEstimate(usage, request.promptBytes, 0)
  }

  lemma AdmissionInNumbers(request: ChatRequest)
    ensures IsAdmission(request, Admission(request))
  {
  }

  lemma UsageInNumbers(request: ChatRequest, provider: AppResult<ChatResponse>, status: nat)
    ensures status != 200 ==> IsMeteredUsage(request, provider, status, EstimateUsage(request.promptBytes, 0))
    ensures provider.Success? ==> IsMeteredUsage(request, provider, 200, ActualUsage(request, provider.value))
  {
  }

  /** The slot counters of both stores are the same, with their expiries. */
  ghost predicate SameSlots(before: Limits.Store, after: Limits.Store) {
    forall scope: Limits.LimitScope :: Limits.SameEntry(before, after, Limits.ConcurrencyCounterKey(scope))
  }

  /** `store` has the slots of a lease on top of the slot counters of `entry`. */
  ghost predicate HoldsLease(entry: Limits.Store, store: Limits.Store, lease: Lease) {
    exists base :: SameSlots(entry, base) && Limits.On(base, store, lease.keys)
  }

  /** Giving back the slots of a lease leaves the slot counters as they were before it. */
  lemma ReleaseRestoresSlots(entry: Limits.Store, store: Limits.Store, lease: Lease)
    requires HoldsLease(entry, store, lease)
    ensures SameSlots(entry, Limits.ReleasedAll(store, lease.keys))
  {
    hide SameSlots, Limits.On, Limits.ReleasedAll;
    var base :| SameSlots(entry, base) && Limits.On(base, store, lease.keys);
    Limits.RollbackRestores(base, store, lease.keys);
  }

  lemma AcquiredLease(entry: Limits.Store, policy: Limits.Policy, scopes: seq<Limits.LimitScope>, tokens: nat, now: Limits.Time,
                      store: Limits.Store)
    requires Limits.Positive(entry)
    requires Limits.Holds(Limits.RateGrown(entry, policy, scopes, tokens, now), store, multiset(Limits.LeaseKeys(policy, scopes)))
    ensures HoldsLease(entry, store, Limits.Lease(Limits.LeaseKeys(policy, scopes)))
    ensures Limits.On(Limits.RateGrown(entry, policy, scopes, tokens, now), store, Limits.LeaseKeys(policy, scopes))
  {
    hide Limits.RateGrown, Limits.LeaseKeys, Limits.Holds, Limits.Positive, Limits.ConcurrencyCounterKey, Limits.SameEntry;
    var base := Limits.RateGrown(entry, policy, scopes, tokens, now);
    Limits.RateGrownPositive(entry, policy, scopes, tokens, now);
    forall scope: Limits.LimitScope ensures Limits.SameEntry(entry, base, Limits.ConcurrencyCounterKey(scope)) {
      Limits.RateGrownCounts(entry, policy, scopes, tokens, now, scope);
    }
    assert SameSlots(entry, base) && Limits.On(base, store, Limits.LeaseKeys(policy, scopes));
  }

  lemma RefusedLease(entry: Limits.Store, policy: Limits.Policy, scopes: seq<Limits.LimitScope>, tokens: nat, now: Limits.Time,
                     refusal: Limits.Refusal, store: Limits.Store, error: AppError)
    requires Limits.Refused(entry, policy, scopes, tokens, now, refusal, store, error)
    ensures SameSlots(entry, store) && error.LimitExceeded?
  {
    hide Limits.Refused, Limits.SameEntry, Limits.ConcurrencyCounterKey;
    Limits.RefusalTakesNothing(entry, policy, scopes, tokens, now, refusal, store, error, Limits.ApiKey(""));
    forall scope: Limits.LimitScope ensures Limits.SameEntry(entry, store, Limits.ConcurrencyCounterKey(scope)) {
      Limits.RefusalTakesNothing(entry, policy, scopes, tokens, now, refusal, store, error, scope);
    }
  }

  lemma SameSlotsItself(store: Limits.Store)
    ensures SameSlots(store, store)
  {
  }

  class ChatHandler {
    const db: Database
    const redis: Limits.Redis
    const policy: Limits.Policy
    var log: seq<Effect>

    constructor (db: Database, redis: Limits.Redis, policy: Limits.Policy)
      ensures this.db == db && this.redis == redis && this.policy == policy && log == []
    {
      this.db, this.redis, this.policy := db, redis, policy;
      log := [];
    }

    method AcquireRuntimeLimits(scopes: seq<Limits.LimitScope>, tokens: nat) returns (r: AppResult<Lease>)
      requires Limits.Positive(redis.store)
      modifies this, redis`store, redis`failures
      ensures Limits.Positive(redis.store) && redis.failures >= old(redis.failures)
      ensures log == old(log) + if r.Success? then [Acquired(r.value)] else []
      ensures r.Success? ==> HoldsLease(old(redis.store), redis.store, r.value) && redis.failures == old(redis.failures)
      ensures r.Success? ==>
                Limits.On(Limits.RateGrown(old(redis.store), policy, scopes, tokens, redis.now), redis.store, r.value.keys)
      ensures r.Success? ==> Limits.Admits(old(redis.store), policy, scopes, tokens)
      ensures r.Failure? && redis.failures == old(redis.failures) ==>
                && SameSlots(old(redis.store), redis.store) && !Limits.Admits(old(redis.store), policy, scopes, tokens)
                && r.error.LimitExceeded?
    {
      hide Limits.Positive, Limits.Holds, Limits.On, Limits.RateGrown, Limits.Refused, Limits.LeftOver, Limits.LeaseKeys, Limits.Admits,
           SameSlots, HoldsLease;
      ghost var refusal, leaked;
      r, refusal, leaked := redis.CheckAndAcquire(policy, scopes, tokens);
      if r.Success? {
        log := log + [Acquired(r.value)];
        AcquiredLease(old(redis.store), policy, scopes, tokens, redis.now, redis.store);
        assert r.value == Limits.Lease(Limits.LeaseKeys(policy, scopes));
      } else if redis.failures == old(redis.failures) {
        RefusedLease(old(redis.store), policy, scopes, tokens, redis.now, refusal, redis.store, r.error);
      }
    }

    method ReleaseLimitLease(lease: Lease)
      requires Limits.Positive(redis.store)
      modifies this, redis`store, redis`failures
      ensures Limits.Positive(redis.store) && redis.failures >= old(redis.failures)
      ensures log == old(log) + [Released(lease)]
      ensures redis.failures == old(redis.failures) ==> redis.store == Limits.ReleasedAll(old(redis.store), lease.keys)
    {
      hide Limits.Positive, Limits.ReleasedAll;
      var ignored;
      ghost var returned;
      ignored, returned := redis.Release(lease);
      log := log + [Released(lease)];
    }

    /** Meters the request. */
    method Record(request: ChatRequest, usage: TokenUsage, status: nat) returns (r: AppResult<()>)
      requires db.Valid()
      modifies this, db
      ensures db.Valid() && log == old(log) + [Recorded(RecordCall(usage, status, r))]
      ensures MetersOnce(old(db.View()), db.View(), MeteringInput(request, usage, status), r)
      ensures r.Failure? ==> r.error in {InsufficientCredit, FAULT}
      ensures r == Failure(InsufficientCredit) ==> ChargeRefused(BalanceOf(db.s.tables, request.user), usage, request.price)
    {
      hide Database.Valid, MetersOnce, ChargeOf, EventOf, ChargeRefused, BalanceOf, Written;
      r := db.RecordUsage(MeteringInput(request, usage, status));
      log := log + [Recorded(RecordCall(usage, status, r))];
    }

    /** Handles one request. `checked` is the state in which the credit check was decided. */
    method ChatCompletions(request: ChatRequest, provider: AppResult<ChatResponse>)
      returns (response: Response, ghost checked: System)
      requires db.Valid() && Limits.Positive(redis.store) && log == []
      modifies this, db, redis`store, redis`failures
      ensures db.Valid() && Limits.Positive(redis.store) && redis.failures >= old(redis.failures)
      // Every acquired lease is given back or handed over, once; while the commands of the key store
      // succeed, an answered run leaves every slot counter as at entry, and a stream holds its lease.
      ensures Settlements(log) == Acquisitions(log) && |Acquisitions(log)| <= 1
      ensures redis.failures == old(redis.failures) && !response.EventStream? ==> SameSlots(old(redis.store), redis.store)
      ensures response.EventStream? ==>
                && request.stream && provider.Success? && Acquisitions(log) != []
                && HoldsLease(old(redis.store), redis.store, Acquisitions(log)[0])
      // The limits are taken once: the rate counters have grown once for the request, and the key
      // store differs by that alone, but for the lease of a stream.
      ensures redis.failures == old(redis.failures) && Acquisitions(log) != [] ==>
                var scopes := [Limits.ApiKey(request.apiKey), Limits.User(request.user), Limits.Provider(request.providerConnection)];
                var grown := Limits.RateGrown(old(redis.store), policy, scopes, Admission(request).totalTokens, redis.now);
                if response.EventStream? then Limits.On(grown, redis.store, Acquisitions(log)[0].keys)
                else redis.store == grown
      // A lease is acquired only if every counter has room, and the balance passed.
      ensures Acquisitions(log) != [] ==>
                var scopes := [Limits.ApiKey(request.apiKey), Limits.User(request.user), Limits.Provider(request.providerConnection)];
                && Limits.Admits(old(redis.store), policy, scopes, Admission(request).totalTokens)
                && PreflightPasses(BalanceOf(checked.tables, request.user), Admission(request), request.price)
      ensures Reaches(old(db.s), checked) && Reaches(checked, db.s)
      // Who is refused before the provider is asked, and with which status: a token limit past the
      // route's; a balance that did not pass, metered with its 402; a counter without room.
      ensures var tokens := ResolveEffectiveMaxTokens(request.requestedMaxTokens, request.routeMaxTokens);
              var scopes := [Limits.ApiKey(request.apiKey), Limits.User(request.user), Limits.Provider(request.providerConnection)];
              if tokens.Failure? then log == [] && response == Json(400)
              else if Acquisitions(log) != [] then true
              else if Records(log) != [] then
                || (response == Json(402)
                    && !PreflightPasses(BalanceOf(checked.tables, request.user), Admission(request), request.price))
                || response == Json(500)
              else
                && log == [] && PreflightPasses(BalanceOf(checked.tables, request.user), Admission(request), request.price)
                && (redis.failures == old(redis.failures) ==>
                      && response == Json(429)
                      && !Limits.Admits(old(redis.store), policy, scopes, Admission(request).totalTokens))
      // At most one metering call: what the database was asked for, and what all transactions of the
      // run wrote, are those of that call, or nothing.
      ensures |Records(log)| <= 1 && (response.EventStream? ==> Records(log) == [])
      ensures if Records(log) == [] then MetersNothing(old(db.View()), db.View())
              else
                var call := Records(log)[0];
                MetersOnce(old(db.View()), db.View(),
                           BillingInput(request.origin.requestId, request.user, call.usage, call.status, request.price), call.result)
      // A plain success is answered only after its metering has committed, and nothing else is charged.
      ensures response == Json(200) ==>
                && provider.Success? && !request.stream && Acquisitions(log) != []
                && Records(log) == [RecordCall(ActualUsage(request, provider.value), 200, Success(()))]
      ensures var rows := Written(db.s, old(db.own), db.own);
              if response == Json(200) && ChargeOf(MeteringInput(request, Records(log)[0].usage, 200)) > 0
              then IsCharge(rows, MeteringInput(request, Records(log)[0].usage, 200), db.s.tables)
              else rows == []
      ensures Acquisitions(log) != [] && provider.Failure? ==>
                && Records(log) != []
                && response == Json(if provider.error.Infrastructure? || provider.error.Provider? then 502
                                    else provider.error.StatusCode())
      // Only an answered request is metered as a success, with its actual usage; every other one
      // with the prompt alone and the status it is answered with, which is never charged.
      ensures Records(log) != [] ==>
                var call := Records(log)[0];
                if call.status == 200 then
                  && Acquisitions(log) != [] && provider.Success? && !request.stream
                  && call.usage == ActualUsage(request, provider.value)
                  && response == Json(if call.result.Success? then 200 else if call.result.error.InsufficientCredit? then 402 else 500)
                else
                  && call.usage == EstimateUsage(request.promptBytes, 0) && !IsSuccessStatus(call.status)
                  && response == Json(call.status)
      // The usages in numbers.
      ensures Records(log) != [] ==> IsMeteredUsage(request, provider, Records(log)[0].status, Records(log)[0].usage)
      ensures IsAdmission(request, Admission(request))
      // The preflight's promise, kept: metering refuses a success only past the estimate, past
      // 64 bits, or after the user was charged since the check.
      ensures Records(log) != [] && Records(log)[0].status == 200
              && Records(log)[0].result == Failure(InsufficientCredit) && NonNegativePrice(request.price) ==>
                || !Within(Records(log)[0].usage, Admission(request))
                || ExactCharge(Admission(request), request.price) > I64_MAX
                || ChargedSince(db.s.tables.ledger, |checked.tables.ledger|, request.user)
    {
      hide NormalizeProviderError, Inv, ChargeOf, EventOf, ChargeRefused, PreflightPasses, BalanceOf, ExactCharge, Reaches,
           CalculateUsageCharge, MetersOnce, MetersNothing, Acquisitions, Settlements, Records, EstimateUsage,
           EstimateAdmissionUsage, ResolveEffectiveMaxTokens, Written, IsCharge, IsAdmission, IsMeteredUsage, SameSlots,
           HoldsLease, ChargedSince, ActualUsage, CeilDivide, SaturatingAddU64, AppError.StatusCode, Admission,
           Limits.Positive, Limits.Admits, Limits.ReleasedAll, Limits.RateGrown, Limits.On;
      var scopes := [Limits.ApiKey(request.apiKey), Limits.User(request.user), Limits.Provider(request.providerConnection)];
      AdmissionInNumbers(request);
      AdmissionOf(request);
      StatusesAre();
      checked := db.s;
      NothingMetered(db.View());
      ShortRuns(Limits.Lease([]), RecordCall(TokenUsage(0, 0, 0, true), 0, Success(())));
      SameSlotsItself(redis.store);
      var maxTokens := ResolveEffectiveMaxTokens(request.requestedMaxTokens, request.routeMaxTokens);
      if maxTokens.Failure? {
        return Json(maxTokens.error.StatusCode()), checked;
      }
      var admission := EstimateAdmissionUsage(request.promptBytes, maxTokens.value);
      var promptOnly := EstimateUsage(request.promptBytes, 0);

      var credit := db.EnsureSufficientCredit(request.user, admission, request.price);
      checked := db.s;
      ghost var afterCheck := db.View();
      CheckWritesNothing(old(db.View()), afterCheck);
      if credit.Failure? {
        var status := credit.error.StatusCode();
        UsageInNumbers(request, provider, status);
        var r := Record(request, promptOnly, status);
        MeteredRows(old(db.View()), afterCheck, db.View(), MeteringInput(request, promptOnly, status), r);
        ShortRuns(Limits.Lease([]), RecordCall(promptOnly, status, r));
        assert log == [Recorded(RecordCall(promptOnly, status, r))];
        return Json(status), checked;
      }

      var limits := AcquireRuntimeLimits(scopes, admission.totalTokens);
      if limits.Failure? {
        assert log == [];
        return Json(limits.error.StatusCode()), checked;
      }
      var lease := limits.value;
      ReleaseRestoresSlots(old(redis.store), redis.store, lease);
      Limits.RollbackRestores(Limits.RateGrown(old(redis.store), policy, scopes, admission.totalTokens, redis.now),
                              redis.store, lease.keys);

      if provider.Failure? {
        var status := NormalizeProviderError(provider.error, request.origin).StatusCode();
        NormalizedStatus(provider.error, request.origin);
        UsageInNumbers(request, provider, status);
        var r := Record(request, promptOnly, status);
        MeteredRows(old(db.View()), afterCheck, db.View(), MeteringInput(request, promptOnly, status), r);
        ReleaseLimitLease(lease);
        MeteredRun(lease, RecordCall(promptOnly, status, r));
        assert log == [Acquired(lease), Recorded(RecordCall(promptOnly, status, r)), Released(lease)];
        return Json(status), checked;
      }
      if request.stream {
        log := log + [HandedOver(lease)];
        ShortRuns(lease, RecordCall(promptOnly, 0, Success(())));
        assert log == [Acquired(lease), HandedOver(lease)];
        return EventStream, checked;
      }
      var usage := ActualUsage(request, provider.value);
      UsageInNumbers(request, provider, 200);
      var r := Record(request, usage, STATUS_OK);
      MeteredRows(old(db.View()), afterCheck, db.View(), MeteringInput(request, usage, STATUS_OK), r);
      ReleaseLimitLease(lease);
      MeteredRun(lease, RecordCall(usage, STATUS_OK, r));
      assert log == [Acquired(lease), Recorded(RecordCall(usage, STATUS_OK, r)), Released(lease)];
      if r.Failure? {
        if r == Failure(InsufficientCredit) && NonNegativePrice(request.price) {
          RefusedMeansCharged(checked, db.s, request.user, admission, usage, request.price);
        }
        return Json(r.error.StatusCode()), checked;
      }
      assert r.value == ();
      return Json(STATUS_OK), checked;
    }
  }

  /** The statuses of the errors a request can end with here. */
  lemma StatusesAre()
    ensures FAULT.StatusCode() == 500 && InsufficientCredit.StatusCode() == 402
    ensures forall text :: LimitExceeded(text).StatusCode() == 429
    ensures forall text :: InvalidConfig(text).StatusCode() == 400
  {
  }

  lemma AdmissionOf(request: ChatRequest)
    ensures var limit := ResolveEffectiveMaxTokens(request.requestedMaxTokens, request.routeMaxTokens);
            limit.Success? ==> Admission(request) == EstimateAdmissionUsage(request.promptBytes, limit.value)
  {
  }

  lemma NothingMetered(account: Account)
    ensures MetersNothing(account, account) && Reaches(account.s, account.s)
    ensures Written(account.s, account.own, account.own) == []
  {
    hide Reaches, Written;
    ReachesItself(account.s);
    CalledIdly(account.s, account.own, account.s);
  }

  lemma CheckWritesNothing(before: Account, after: Account)
    requires MetersNothing(before, after)
    ensures Reaches(before.s, after.s) && Reaches(after.s, after.s) && Written(after.s, before.own, after.own) == []
  {
    hide Reaches, Written;
    ReachesItself(after.s);
  }

  /** A run of the credit check and one metering call. */
  lemma MeteredRows(before: Account, checked: Account, after: Account, input: BillingInput, r: AppResult<()>)
    requires Inv(before.s) && MetersNothing(before, checked) && MetersOnce(checked, after, input, r)
    ensures MetersOnce(before, after, input, r) && Reaches(checked.s, after.s)
    ensures MeteringRows(Written(after.s, before.own, after.own), input, r, after.s.tables)
  {
    hide Inv, Reaches, Written, MeteringRows, IsMetered, EventsAlone;
    MetersAfterNothing(before, checked, after, input, r);
  }

  /** A charge refused in a later state than a passed preflight. */
  lemma RefusedMeansCharged(checked: System, s: System, user: UserId, estimate: TokenUsage, usage: TokenUsage, price: RoutePrice)
    requires Inv(checked) && Reaches(checked, s) && NonNegativePrice(price)
    requires PreflightPasses(BalanceOf(checked.tables, user), estimate, price)
    requires ChargeRefused(BalanceOf(s.tables, user), usage, price)
    ensures || !Within(usage, estimate) || ExactCharge(estimate, price) > I64_MAX
            || ChargedSince(s.tables.ledger, |checked.tables.ledger|, user)
  {
    hide Inv, Reaches, PreflightPasses, ChargeRefused, BalanceOf, ExactCharge, ChargedSince;
    BalanceNonNegative(checked, user);
    RefusedMeansBroken(BalanceOf(checked.tables, user), BalanceOf(s.tables, user), estimate, usage, price);
    if BalanceOf(s.tables, user) < BalanceOf(checked.tables, user) {
      FallenBalanceWasCharged(checked, s, user);
    }
  }

  lemma BalanceNonNegative(s: System, user: UserId)
    requires Inv(s)
    ensures BalanceOf(s.tables, user) >= 0
  {
    WalletNonNegative(s.tables, user);
  }

  lemma RefusedMeansBroken(before: I64, after: I64, estimate: TokenUsage, usage: TokenUsage, price: RoutePrice)
    requires before >= 0 && PreflightPasses(before, estimate, price) && ChargeRefused(after, usage, price) && NonNegativePrice(price)
    ensures !Within(usage, estimate) || ExactCharge(estimate, price) > I64_MAX || after < before
  {
    hide PreflightPasses, ChargeRefused, ExactCharge;
    if ExactCharge(estimate, price) <= I64_MAX {
      PreflightGuarantees(estimate, price);
    }
  }
}
