/** The runtime limiter's calls with other clients' scripts, and expiries, between any two of their
    own: the slot counters are those of `LimitSlots`, shared by all clients. */
module LimitClients {
  import opened Core
  import opened Limits
  import S = LimitSlots

  type SlotId = S.SlotId

  /** A run that gives back none of the slots `kept`. */
  predicate Spares(ops: seq<S.Op>, kept: set<SlotId>) {
    forall i :: 0 <= i < |ops| && ops[i].GiveBack? ==> ops[i].slot !in kept
  }

  ghost predicate Later(s: S.State, s': S.State, kept: set<SlotId>) {
    exists ops :: S.Legal(s, ops) && S.After(s, ops) == s' && Spares(ops, kept)
  }

  lemma LaterItself(s: S.State, kept: set<SlotId>)
    ensures Later(s, s, kept)
  {
    assert S.Legal(s, []) && S.After(s, []) == s && Spares([], kept);
  }

  lemma LaterNext(s: S.State, op: S.Op, kept: set<SlotId>)
    requires S.Enabled(s, op) && (op.GiveBack? ==> op.slot !in kept)
    ensures Later(s, S.Apply(s, op), kept)
  {
    hide S.Apply, S.Enabled;
    var ops := [op];
    assert ops[0] == op && ops[1..] == [];
    assert S.Legal(s, ops) && S.After(s, ops) == S.Apply(s, op);
    assert Spares(ops, kept);
  }

  lemma {:induction false} RunOn(s: S.State, a: seq<S.Op>, b: seq<S.Op>)
    requires S.Legal(s, a) && S.Legal(S.After(s, a), b)
    ensures S.Legal(s, a + b) && S.After(s, a + b) == S.After(S.After(s, a), b)
    decreases |a|
  {
    hide S.Apply, S.Enabled;
    if a == [] {
      assert a + b == b;
    } else {
      assert (a + b)[0] == a[0] && (a + b)[1..] == a[1..] + b;
      RunOn(S.Apply(s, a[0]), a[1..], b);
    }
  }

  lemma LaterOn(a: S.State, b: S.State, c: S.State, kept: set<SlotId>, more: set<SlotId>)
    requires Later(a, b, kept) && Later(b, c, more) && kept <= more
    ensures Later(a, c, kept)
  {
    hide S.Legal, S.After;
    var first :| S.Legal(a, first) && S.After(a, first) == b && Spares(first, kept);
    var second :| S.Legal(b, second) && S.After(b, second) == c && Spares(second, more);
    RunOn(a, first, second);
    assert S.Legal(a, first + second) && S.After(a, first + second) == c && Spares(first + second, kept);
  }

  lemma LaterLess(s: S.State, s': S.State, kept: set<SlotId>, less: set<SlotId>)
    requires Later(s, s', kept) && less <= kept
    ensures Later(s, s', less)
  {
    hide S.Legal, S.After;
    var ops :| S.Legal(s, ops) && S.After(s, ops) == s' && Spares(ops, kept);
    assert Spares(ops, less);
  }

  /** Slots keep their numbers, and those kept are as they were. */
  predicate Keeps(s: S.State, s': S.State, kept: set<SlotId>) {
    && S.SlotIdsOk(s') && s.nextSlot <= s'.nextSlot
    && forall id :: id in kept ==> id in s.slots && id in s'.slots && s'.slots[id] == s.slots[id]
  }

  lemma KeepsOn(a: S.State, b: S.State, c: S.State, kept: set<SlotId>)
    requires Keeps(a, b, kept) && Keeps(b, c, kept)
    ensures Keeps(a, c, kept)
  {
  }

  lemma StepKeeps(s: S.State, op: S.Op, kept: set<SlotId>)
    requires S.SlotIdsOk(s) && kept <= s.slots.Keys && S.Enabled(s, op) && (op.GiveBack? ==> op.slot !in kept)
    ensures Keeps(s, S.Apply(s, op), kept)
  {
    hide Incremented, Released, Value;
  }

  lemma {:induction false} RunKeeps(s: S.State, ops: seq<S.Op>, kept: set<SlotId>)
    requires S.SlotIdsOk(s) && kept <= s.slots.Keys && S.Legal(s, ops) && Spares(ops, kept)
    ensures Keeps(s, S.After(s, ops), kept)
    decreases |ops|
  {
    hide S.Apply, S.Enabled;
    if ops != [] {
      StepKeeps(s, ops[0], kept);
      RunKeeps(S.Apply(s, ops[0]), ops[1..], kept);
    }
  }

  lemma LaterKeeps(s: S.State, s': S.State, kept: set<SlotId>)
    requires S.SlotIdsOk(s) && kept <= s.slots.Keys && Later(s, s', kept)
    ensures Keeps(s, s', kept)
  {
    hide S.Legal, S.After, S.SlotIdsOk, Spares;
    var ops :| S.Legal(s, ops) && S.After(s, ops) == s' && Spares(ops, kept);
    RunKeeps(s, ops, kept);
  }

  /** What is proved of every run holds around a call. */
  lemma LaterKeepsBounded(s: S.State, s': S.State, kept: set<SlotId>, key: string)
    requires S.Bounded(s, key) && Later(s, s', kept)
    ensures S.Bounded(s', key)
  {
    hide S.Legal, S.After, S.Bounded, Spares;
    var ops :| S.Legal(s, ops) && S.After(s, ops) == s' && Spares(ops, kept);
    S.RunKeepsBounded(s, ops, key);
  }

  /** Different slots, one for each of the keys. */
  predicate OneEach(s: S.State, ids: seq<SlotId>, keys: seq<string>) {
    && |ids| == |keys|
    && (forall i :: 0 <= i < |ids| ==> ids[i] in s.slots && s.slots[ids[i]].key == keys[i])
    && (forall i, j :: 0 <= i < j < |ids| ==> ids[i] != ids[j])
  }

  predicate GrantedFor(slot: S.Slot, limit: nat) {
    slot.granted && slot.limit == limit
  }

  predicate AllGranted(s: S.State, ids: seq<SlotId>, limit: nat) {
    forall i :: 0 <= i < |ids| ==> ids[i] in s.slots && GrantedFor(s.slots[ids[i]], limit)
  }

  /** The slots that came on top of `base`. */
  function SetOf(ids: seq<SlotId>): set<SlotId> {
    set id | id in ids
  }

  lemma KeepsOneEach(s: S.State, s': S.State, kept: set<SlotId>, ids: seq<SlotId>, keys: seq<string>)
    requires Keeps(s, s', kept) && SetOf(ids) <= kept && OneEach(s, ids, keys)
    ensures OneEach(s', ids, keys) && forall limit: nat :: AllGranted(s, ids, limit) ==> AllGranted(s', ids, limit)
  {
    assert forall i :: 0 <= i < |ids| ==> ids[i] in SetOf(ids);
  }

  lemma FirstOf(s: S.State, ids: seq<SlotId>, keys: seq<string>, i: nat)
    requires i < |ids| == |keys| && OneEach(s, ids[i..], keys[i..])
    ensures ids[i] in s.slots && s.slots[ids[i]].key == keys[i] && OneEach(s, ids[i + 1..], keys[i + 1..])
    ensures SetOf(ids[i..]) == SetOf(ids[i + 1..]) + {ids[i]} && ids[i] !in SetOf(ids[i + 1..])
  {
    var more := ids[i + 1..];
    assert ids[i..] == [ids[i]] + more && keys[i..] == [keys[i]] + keys[i + 1..];
    forall j | 0 <= j < |more| ensures more[j] in s.slots && s.slots[more[j]].key == keys[i + 1..][j] && more[j] != ids[i] {
      assert ids[i..][0] == ids[i] && ids[i..][j + 1] == more[j];
    }
    assert ids[i] == ids[i..][0];
  }

  /** Of `all` slots some are `left`, some given back, and the `rest` is still to be; `kept` are others. */
  predicate Parts(mine: set<SlotId>, kept: set<SlotId>, left: set<SlotId>, rest: set<SlotId>, all: set<SlotId>) {
    mine == kept + left + rest && kept !! all && left <= all && rest <= all && left !! rest
  }

  lemma AllParts(s: S.State, mine: set<SlotId>, ids: seq<SlotId>, keys: seq<string>)
    requires OneEach(s, ids, keys) && SetOf(ids) <= mine
    ensures Parts(mine, mine - SetOf(ids), {}, SetOf(ids), SetOf(ids)) && |ids| == |keys|
  {
  }

  lemma OnePart(mine: set<SlotId>, kept: set<SlotId>, left: set<SlotId>, rest: set<SlotId>, all: set<SlotId>, id: SlotId)
    requires Parts(mine, kept, left, rest + {id}, all) && id !in rest
    ensures Parts(mine - {id}, kept, left, rest, all) && Parts(mine, kept, left + {id}, rest, all)
    ensures id in mine && rest <= mine - {id} && kept <= mine - {id} && |left + {id}| == |left| + 1
  {
  }

  lemma NoPart(mine: set<SlotId>, kept: set<SlotId>, left: set<SlotId>, ids: seq<SlotId>, all: set<SlotId>)
    requires Parts(mine, kept, left, SetOf(ids[|ids|..]), all)
    ensures left <= all && mine == kept + left
  {
    assert SetOf(ids[|ids|..]) == {};
  }

  // ----- What a client asks the store, and the answers -----

  /** One increment: its counter, amount and expiry, and the limit the client holds the answer against. */
  datatype Ask = Ask(key: string, amount: nat, ttl: nat, limit: nat)
  datatype Answer = Answer(ask: Ask, count: int)

  function RequestAsks(policy: Policy, scope: LimitScope): seq<Ask> {
    if policy.requestsPerWindow == 0 then []
    else [Ask(RequestCounterKey(scope), 1, policy.windowSeconds, policy.requestsPerWindow)]
  }

  function TokenAsks(policy: Policy, scope: LimitScope, tokens: nat): seq<Ask> {
    if !policy.CountsTokens(tokens) then []
    else [Ask(TokenCounterKey(scope), tokens, policy.windowSeconds, policy.tokensPerWindow)]
  }

  function RateAsks(policy: Policy, scope: LimitScope, tokens: nat): seq<Ask> {
    RequestAsks(policy, scope) + TokenAsks(policy, scope, tokens)
  }

  function SlotAsks(policy: Policy, scope: LimitScope): seq<Ask> {
    if policy.concurrentRequests == 0 then []
    else [Ask(ConcurrencyCounterKey(scope), 1, policy.leaseSeconds, policy.concurrentRequests)]
  }

  /** All a request asks: in each scope one count of requests, one of tokens and one slot. */
  function Asks(policy: Policy, scopes: seq<LimitScope>, tokens: nat): seq<Ask> {
    if scopes == [] then []
    else
      var init, last := scopes[..|scopes| - 1], scopes[|scopes| - 1];
      Asks(policy, init, tokens) + (RateAsks(policy, last, tokens) + SlotAsks(policy, last))
  }

  /** The asks of one scope, with their counters spelled out: requests and tokens in the window, slots
      for the lease time, each against its own limit. */
  lemma AsksAre(policy: Policy, scope: LimitScope, tokens: nat)
    ensures RateAsks(policy, scope, tokens) + SlotAsks(policy, scope) ==
            (if policy.requestsPerWindow == 0 then []
             else [Ask("mizan:limit:rpm:" + scope.KeyPart(), 1, policy.windowSeconds, policy.requestsPerWindow)]) +
            (if policy.tokensPerWindow == 0 || tokens == 0 then []
             else [Ask("mizan:limit:tpm:" + scope.KeyPart(), tokens, policy.windowSeconds, policy.tokensPerWindow)]) +
            (if policy.concurrentRequests == 0 then []
             else [Ask("mizan:limit:concurrency:" + scope.KeyPart(), 1, policy.leaseSeconds, policy.concurrentRequests)])
  {
    hide LimitScope.KeyPart;
  }

  datatype Outcome = Passed | Over | Broken

  function OutcomeOf<T>(r: AppResult<T>): Outcome {
    if r.Success? then Passed else if r.error.LimitExceeded? then Over else Broken
  }

  predicate Within(answer: Answer) {
    answer.count <= answer.ask.limit
  }

  /** The answers are to the asks, in order: to all of them, each within its limit; or up to the first
      that is over its limit; or up to a failed command. */
  predicate Ran(answers: seq<Answer>, asks: seq<Ask>, outcome: Outcome) {
    && |answers| <= |asks| && (forall i :: 0 <= i < |answers| ==> answers[i].ask == asks[i])
    && match outcome
       case Passed => |answers| == |asks| && forall i :: 0 <= i < |answers| ==> Within(answers[i])
       case Over =>
         answers != [] && !Within(answers[|answers| - 1]) && forall i :: 0 <= i < |answers| - 1 ==> Within(answers[i])
       case Broken => true
  }

  lemma RanOn(a: seq<Answer>, first: seq<Ask>, b: seq<Answer>, second: seq<Ask>, outcome: Outcome)
    requires Ran(a, first, Passed) && Ran(b, second, outcome)
    ensures Ran(a + b, first + second, outcome)
  {
  }

  lemma RanOne(key: string, amount: nat, ttl: nat, limit: nat, count: int)
    ensures var ask := Ask(key, amount, ttl, limit);
            Ran([Answer(ask, count)], [ask], if count <= limit then Passed else Over)
  {
  }

  lemma RanBroken(answers: seq<Answer>, asks: seq<Ask>, outcome: Outcome)
    requires Ran(answers, asks, outcome)
    ensures Ran(answers, asks, Broken)
  {
  }

  lemma RanNothing()
    ensures Ran([], [], Passed) && forall asks :: Ran([], asks, Broken)
  {
  }

  lemma RanMore(answers: seq<Answer>, asks: seq<Ask>, more: seq<Ask>, outcome: Outcome)
    requires Ran(answers, asks, outcome) && outcome != Passed
    ensures Ran(answers, asks + more, outcome)
  {
  }

  lemma {:induction false} AsksPrefix(policy: Policy, scopes: seq<LimitScope>, i: nat, tokens: nat)
    requires i <= |scopes|
    ensures Asks(policy, scopes[..i], tokens) <= Asks(policy, scopes, tokens)
    ensures i < |scopes| ==>
              Asks(policy, scopes[..i + 1], tokens) ==
              Asks(policy, scopes[..i], tokens) + (RateAsks(policy, scopes[i], tokens) + SlotAsks(policy, scopes[i]))
  {
    hide RateAsks, SlotAsks;
    if i < |scopes| {
      assert scopes[..i + 1][..i] == scopes[..i];
      if i + 1 < |scopes| {
        AsksPrefix(policy, scopes[..|scopes| - 1], i, tokens);
        assert scopes[..|scopes| - 1][..i] == scopes[..i];
      } else {
        assert scopes[..i + 1] == scopes;
      }
    } else {
      assert scopes[..i] == scopes;
    }
  }

  lemma RanUpTo(answers: seq<Answer>, policy: Policy, scopes: seq<LimitScope>, i: nat, tokens: nat, outcome: Outcome)
    requires i <= |scopes| && outcome != Passed && Ran(answers, Asks(policy, scopes[..i], tokens), outcome)
    ensures Ran(answers, Asks(policy, scopes, tokens), outcome)
  {
    hide Ran, Asks;
    AsksPrefix(policy, scopes, i, tokens);
    var some, all := Asks(policy, scopes[..i], tokens), Asks(policy, scopes, tokens);
    assert all == some + all[|some|..];
    RanMore(answers, some, all[|some|..], outcome);
  }

  class Client {
    /** The slot counters; every client's slots, of which `mine` are this one's. */
    var store: Store
    ghost var s: S.State
    ghost var mine: set<SlotId>

    /** The request and token counters. Their keys are no slot counter's (`Limits.KeysAreDistinct`). */
    var rates: Store

    var now: Time

    /** The answers this client got, and how many of its commands failed. */
    ghost var answers: seq<Answer>
    ghost var failures: nat

    ghost predicate Valid()
      reads this`store, this`s, this`mine
    {
      s.store == store && S.SlotIdsOk(s) && mine <= s.slots.Keys
    }

    constructor ()
      ensures Valid() && s == S.EMPTY && mine == {} && answers == [] && failures == 0
    {
      store, rates, now := map[], map[], 0;
      s, mine, answers, failures := S.EMPTY, {}, [], 0;
    }

    /** Other clients run scripts, keys expire, time passes. */
    method Yield()
      requires Valid()
      modifies this`store, this`s, this`rates, this`now
      ensures Valid() && Later(old(s), s, mine) && Keeps(old(s), s, mine)
    {
      LaterItself(s, mine);
      LaterKeeps(s, s, mine);
    }

    /** `increment_window_counter` on a rate counter. */
    method Count(key: string, ttl: nat, amount: nat, ghost limit: nat) returns (r: AppResult<int>)
      requires Valid()
      modifies this`store, this`s, this`rates, this`now, this`answers, this`failures
      ensures answers == old(answers) + if r.Success? then [Answer(Ask(key, amount, ttl, limit), r.value)] else []
      ensures Valid() && Later(old(s), s, mine) && Keeps(old(s), s, mine)
      ensures r.Failure? <==> failures > old(failures)
      ensures failures >= old(failures) && (r.Failure? ==> r == Failure(DOWN))
    {
      hide Later, Keeps;
      Yield();
      var up := *;
      if !up {
        failures := failures + 1;
        return Failure(DOWN);
      }
      rates := Incremented(rates, key, ttl, amount, now);
      answers := answers + [Answer(Ask(key, amount, ttl, limit), rates[key].count)];
      return Success(rates[key].count);
    }

    /** `increment_window_counter` on a slot counter: one slot more is this client's. */
    method TakeSlot(key: string, limit: nat, ttl: nat) returns (r: AppResult<int>, ghost id: SlotId)
      requires Valid()
      modifies this`store, this`s, this`mine, this`rates, this`now, this`answers, this`failures
      ensures Valid() && Later(old(s), s, old(mine)) && Keeps(old(s), s, old(mine))
      ensures answers == old(answers) + if r.Success? then [Answer(Ask(key, 1, ttl, limit), r.value)] else []
      ensures r.Success? ==>
                && failures == old(failures) && id !in old(mine) && mine == old(mine) + {id}
                && id in s.slots && s.slots[id].key == key && (GrantedFor(s.slots[id], limit) <==> r.value <= limit)
      ensures r.Failure? ==> r == Failure(DOWN) && failures == old(failures) + 1 && mine == old(mine)
    {
      hide Later;
      Yield();
      ghost var before := s;
      id := s.nextSlot;
      var up := *;
      if !up {
        failures := failures + 1;
        return Failure(DOWN), id;
      }
      ghost var op := S.Take(key, limit, ttl, now);
      LaterNext(before, op, mine);
      StepKeeps(before, op, mine);
      LaterOn(old(s), before, S.Apply(before, op), mine, mine);
      store := Incremented(store, key, ttl, 1, now);
      s := S.Apply(s, op);
      mine := mine + {id};
      answers := answers + [Answer(Ask(key, 1, ttl, limit), store[key].count)];
      return Success(store[key].count), id;
    }

    /** `release_key` for the slot `id`. */
    method GiveBackSlot(key: string, ghost id: SlotId) returns (r: AppResult<int>)
      requires Valid() && id in mine && s.slots[id].key == key
      modifies this`store, this`s, this`mine, this`rates, this`now, this`failures
      ensures Valid() && Later(old(s), s, old(mine) - {id}) && Keeps(old(s), s, old(mine) - {id})
      ensures r.Success? ==> mine == old(mine) - {id} && id !in s.slots && failures == old(failures)
      ensures r.Failure? ==>
                r == Failure(DOWN) && mine == old(mine) && failures == old(failures) + 1 && Keeps(old(s), s, old(mine))
    {
      hide Later;
      Yield();
      ghost var before := s;
      LaterLess(old(s), before, mine, mine - {id});
      var up := *;
      if !up {
        failures := failures + 1;
        return Failure(DOWN);
      }
      ghost var op := S.GiveBack(id);
      LaterNext(before, op, mine - {id});
      StepKeeps(before, op, mine - {id});
      LaterOn(old(s), before, S.Apply(before, op), mine - {id}, mine - {id});
      var current := if key in store then store[key].count - 1 else 0;
      store := Released(store, key);
      s := S.Apply(s, op);
      mine := mine - {id};
      return Success(current);
    }

    /** Tries every key: the slots that are `left` are as many as the commands that failed. */
    method ReleaseKeys(keys: seq<string>, ghost ids: seq<SlotId>) returns (r: AppResult<()>, ghost left: set<SlotId>)
      requires Valid() && OneEach(s, ids, keys) && SetOf(ids) <= mine
      modifies this`store, this`s, this`mine, this`rates, this`now, this`failures
      ensures Valid() && Later(old(s), s, old(mine) - SetOf(ids))
      ensures left <= SetOf(ids) && mine == old(mine) - SetOf(ids) + left && |left| == failures - old(failures)
      ensures if failures == old(failures) then r.Success? else r == Failure(DOWN)
    {
      hide Later, Keeps, OneEach, Valid, SetOf, Parts;
      var firstError: Option<AppError> := None;
      ghost var all, kept := SetOf(ids), mine - SetOf(ids);
      left := {};
      LaterItself(s, kept);
      AllParts(s, mine, ids, keys);
      assert ids[0..] == ids && keys[0..] == keys;
      for i := 0 to |keys|
        invariant Valid() && Later(old(s), s, kept) && OneEach(s, ids[i..], keys[i..])
        invariant Parts(mine, kept, left, SetOf(ids[i..]), all) && |left| == failures - old(failures)
        invariant if failures == old(failures) then firstError.None? else firstError == Some(DOWN)
      {
        FirstOf(s, ids, keys, i);
        ghost var id, before, owed, rest := ids[i], s, mine, SetOf(ids[i + 1..]);
        OnePart(mine, kept, left, rest, all, id);
        var released := GiveBackSlot(keys[i], id);
        LaterOn(old(s), before, s, kept, owed - {id});
        KeepsOneEach(before, s, owed - {id}, ids[i + 1..], keys[i + 1..]);
        if released.Failure? {
          left := left + {id};
          if firstError.None? {
            firstError := Some(released.error);
          }
        }
      }
      NoPart(mine, kept, left, ids, all);
      return if firstError.Some? then Failure(firstError.value) else Success(()), left;
    }

    /** `RuntimeLimitLease::release`, of a lease with the slots `ids`. */
    method Release(lease: Lease, ghost ids: seq<SlotId>) returns (r: AppResult<()>, ghost left: set<SlotId>)
      requires Valid() && OneEach(s, ids, lease.keys) && SetOf(ids) <= mine
      modifies this`store, this`s, this`mine, this`rates, this`now, this`failures
      ensures Valid() && Later(old(s), s, old(mine) - SetOf(ids))
      ensures r.Success? ==> mine == old(mine) - SetOf(ids) && failures == old(failures)
      ensures r.Failure? ==> r == Failure(DOWN) && failures > old(failures)
      ensures left <= SetOf(ids) && mine == old(mine) - SetOf(ids) + left
    {
      hide Later, Valid;
      LaterItself(s, mine - SetOf(ids));
      if lease.keys == [] {
        return Success(()), {};
      }
      var up := *;
      if !up {
        failures := failures + 1;
        return Failure(DOWN), SetOf(ids);
      }
      r, left := ReleaseKeys(lease.keys, ids);
    }

    /** Both rate counters of a scope. */
    method CheckRates(policy: Policy, scope: LimitScope, tokens: nat) returns (r: AppResult<()>, ghost got: seq<Answer>)
      requires Valid()
      modifies this`store, this`s, this`rates, this`now, this`answers, this`failures
      ensures Valid() && Later(old(s), s, mine) && Keeps(old(s), s, mine) && failures >= old(failures)
      ensures answers == old(answers) + got && Ran(got, RateAsks(policy, scope, tokens), OutcomeOf(r))
      ensures r == Failure(DOWN) <==> failures > old(failures)
      ensures r.Failure? && r != Failure(DOWN) ==>
                || r == Failure(Exceeded("requests_per_window", scope))
                || r == Failure(Exceeded("tokens_per_window", scope))
    {
      hide Later, Keeps, Valid, RequestCounterKey, TokenCounterKey, LimitScope.KeyPart, Ran;
      SlotsKept();
      RanNothing();
      got := [];
      ghost var asked, more := RequestAsks(policy, scope), TokenAsks(policy, scope, tokens);
      if policy.requestsPerWindow != 0 {
        var key := RequestCounterKey(scope);
        var count := Count(key, policy.windowSeconds, 1, policy.requestsPerWindow);
        if count.Failure? {
          return Failure(count.error), got;
        }
        RanOne(key, 1, policy.windowSeconds, policy.requestsPerWindow, count.value);
        got := [Answer(Ask(key, 1, policy.windowSeconds, policy.requestsPerWindow), count.value)];
        if count.value > policy.requestsPerWindow {
          RanMore(got, asked, more, Over);
          return Failure(Exceeded("requests_per_window", scope)), got;
        }
      }
      assert Ran(got, asked, Passed);
      if policy.tokensPerWindow != 0 && tokens != 0 {
        ghost var before, first := s, got;
        var key := TokenCounterKey(scope);
        var count := Count(key, policy.windowSeconds, tokens, policy.tokensPerWindow);
        LaterOn(old(s), before, s, mine, mine);
        KeepsOn(old(s), before, s, mine);
        if count.Failure? {
          RanOn(first, asked, [], more, Broken);
          assert first + [] == first;
          return Failure(count.error), got;
        }
        ghost var last := [Answer(Ask(key, tokens, policy.windowSeconds, policy.tokensPerWindow), count.value)];
        got := first + last;
        RanOne(key, tokens, policy.windowSeconds, policy.tokensPerWindow, count.value);
        RanOn(first, asked, last, more, if count.value <= policy.tokensPerWindow then Passed else Over);
        if count.value > policy.tokensPerWindow {
          return Failure(Exceeded("tokens_per_window", scope)), got;
        }
      } else {
        assert asked + more == asked;
      }
      return Success(()), got;
    }

    lemma SlotsKept()
      requires Valid()
      ensures Later(s, s, mine) && Keeps(s, s, mine)
    {
      LaterItself(s, mine);
    }

    /** One slot more, or one taken and given back, or `stuck` when that command failed. */
    method AcquireConcurrencyLease(policy: Policy, scope: LimitScope)
      returns (r: AppResult<Option<string>>, ghost id: SlotId, ghost stuck: set<SlotId>, ghost got: seq<Answer>)
      requires Valid()
      modifies this`store, this`s, this`mine, this`rates, this`now, this`answers, this`failures
      ensures Valid() && Later(old(s), s, old(mine)) && Keeps(old(s), s, old(mine)) && failures >= old(failures)
      ensures answers == old(answers) + got && Ran(got, SlotAsks(policy, scope), OutcomeOf(r))
      ensures r == Failure(DOWN) <==> failures > old(failures)
      ensures r.Success? ==>
                if policy.concurrentRequests == 0 then r.value.None? && mine == old(mine)
                else
                  && r.value == Some(ConcurrencyCounterKey(scope)) && id !in old(mine) && mine == old(mine) + {id}
                  && id in s.slots && s.slots[id].key == ConcurrencyCounterKey(scope)
                  && GrantedFor(s.slots[id], policy.concurrentRequests)
      ensures r.Failure? ==> mine == old(mine) + stuck && stuck !! old(mine) && |stuck| <= failures - old(failures)
      ensures r.Failure? && r != Failure(DOWN) ==> r.error.LimitExceeded?
      ensures r.Failure? && r != Failure(DOWN) ==>
                r == Failure(Exceeded("concurrent_requests", scope)) && policy.concurrentRequests > 0
    {
      hide Later, Keeps, ConcurrencyCounterKey, LimitScope.KeyPart, Ran;
      id, stuck, got := 0, {}, [];
      SlotsKept();
      RanNothing();
      if policy.concurrentRequests == 0 {
        return Success(None), id, stuck, got;
      }
      var key := ConcurrencyCounterKey(scope);
      var count;
      count, id := TakeSlot(key, policy.concurrentRequests, policy.leaseSeconds);
      if count.Failure? {
        return Failure(count.error), id, stuck, got;
      }
      RanOne(key, 1, policy.leaseSeconds, policy.concurrentRequests, count.value);
      got := [Answer(Ask(key, 1, policy.leaseSeconds, policy.concurrentRequests), count.value)];
      if count.value > policy.concurrentRequests {
        ghost var before := s;
        assert mine - {id} == old(mine);
        var released := GiveBackSlot(key, id);
        LaterOn(old(s), before, s, old(mine), old(mine));
        KeepsOn(old(s), before, s, old(mine));
        if released.Failure? {
          RanBroken(got, SlotAsks(policy, scope), Over);
          return Failure(released.error), id, {id}, got;
        }
        return Failure(Exceeded("concurrent_requests", scope)), id, stuck, got;
      }
      return Success(Some(key)), id, stuck, got;
    }

    /** One scope: its rate counters, then its slot. */
    method AcquireScope(policy: Policy, scope: LimitScope, tokens: nat)
      returns (r: AppResult<Option<string>>, ghost id: SlotId, ghost stuck: set<SlotId>, ghost got: seq<Answer>)
      requires Valid()
      modifies this`store, this`s, this`mine, this`rates, this`now, this`answers, this`failures
      ensures Valid() && Later(old(s), s, old(mine)) && Keeps(old(s), s, old(mine)) && failures >= old(failures)
      ensures answers == old(answers) + got
      ensures Ran(got, RateAsks(policy, scope, tokens) + SlotAsks(policy, scope), OutcomeOf(r))
      ensures r == Failure(DOWN) <==> failures > old(failures)
      ensures r.Success? ==>
                if policy.concurrentRequests == 0 then r.value.None? && mine == old(mine)
                else
                  && r.value == Some(ConcurrencyCounterKey(scope)) && id !in old(mine) && mine == old(mine) + {id}
                  && id in s.slots && s.slots[id].key == ConcurrencyCounterKey(scope)
                  && GrantedFor(s.slots[id], policy.concurrentRequests)
      ensures r.Failure? ==> mine == old(mine) + stuck && stuck !! old(mine) && |stuck| <= failures - old(failures)
      ensures r.Failure? && r != Failure(DOWN) ==> r.error.LimitExceeded?
    {
      hide Later, Keeps, Valid, ConcurrencyCounterKey, Ran, RateAsks, SlotAsks;
      var rates;
      ghost var first, last;
      rates, first := CheckRates(policy, scope, tokens);
      if rates.Failure? {
        RanMore(first, RateAsks(policy, scope, tokens), SlotAsks(policy, scope), OutcomeOf(rates));
        return Failure(rates.error), 0, {}, first;
      }
      ghost var before := s;
      r, id, stuck, last := AcquireConcurrencyLease(policy, scope);
      LaterOn(old(s), before, s, old(mine), old(mine));
      KeepsOn(old(s), before, s, old(mine));
      got := first + last;
      RanOn(first, RateAsks(policy, scope, tokens), last, SlotAsks(policy, scope), OutcomeOf(r));
    }

    /** Gives back what was acquired before a refusal or a failed command; `base` are earlier slots. */
    method RollBack(acquired: seq<string>, ghost ids: seq<SlotId>, ghost base: set<SlotId>, ghost stuck: set<SlotId>,
                    ghost limit: nat)
      returns (ghost leaked: set<SlotId>)
      requires Valid() && stuck <= mine && Acquired(s, base, mine - stuck, ids, acquired, limit)
      modifies this`store, this`s, this`mine, this`rates, this`now, this`failures
      ensures Valid() && Later(old(s), s, base) && failures >= old(failures)
      ensures mine == base + leaked && leaked !! base && |leaked| <= |stuck| + failures - old(failures)
    {
      hide *;
      var ignored;
      ghost var left;
      AcquiredSlots(s, base, mine, stuck, ids, acquired, limit);
      ignored, left := ReleaseKeys(acquired, ids);
      LeakedSlots(base, old(mine), stuck, SetOf(ids), left);
      LaterLess(old(s), s, old(mine) - SetOf(ids), base);
      leaked := stuck + left;
    }

    /** Counts in every scope and takes one slot in each, whatever others do meanwhile: exactly one
        granted slot for each scope, or none; after failed commands at most as many are `leaked`. */
    method CheckAndAcquire(policy: Policy, scopes: seq<LimitScope>, tokens: nat)
      returns (r: AppResult<Lease>, ghost ids: seq<SlotId>, ghost leaked: set<SlotId>, ghost got: seq<Answer>)
      requires Valid()
      modifies this`store, this`s, this`mine, this`rates, this`now, this`answers, this`failures
      ensures Valid() && Later(old(s), s, old(mine)) && failures >= old(failures)
      // Every scope is asked once, in order, up to the first answer over its limit, which refuses.
      ensures answers == old(answers) + got && Ran(got, Asks(policy, scopes, tokens), OutcomeOf(r))
      ensures r.Success? ==>
                && failures == old(failures) && r.value.keys == LeaseKeys(policy, scopes)
                && Acquired(s, old(mine), mine, ids, r.value.keys, policy.concurrentRequests)
      ensures r.Failure? ==> mine == old(mine) + leaked && leaked !! old(mine) && |leaked| <= failures - old(failures)
      ensures r.Failure? && failures == old(failures) ==> mine == old(mine) && r.error.LimitExceeded?
    {
      hide *;
      ids, leaked, got := [], {}, [];
      SlotsKept();
      NoneYet(s, mine, policy, scopes, tokens);
      if policy.IsDisabled() || scopes == [] {
        return Success(Lease([])), ids, leaked, got;
      }
      var up := *;
      if !up {
        failures := failures + 1;
        return Failure(DOWN), ids, leaked, got;
      }
      var acquired: seq<string> := [];
      for i := 0 to |scopes|
        invariant Valid() && Later(old(s), s, old(mine)) && failures == old(failures)
        invariant acquired == LeaseKeys(policy, scopes[..i])
        invariant Acquired(s, old(mine), mine, ids, acquired, policy.concurrentRequests)
        invariant answers == old(answers) + got && Ran(got, Asks(policy, scopes[..i], tokens), Passed)
      {
        ghost var before, held := s, mine;
        var slot;
        ghost var id, stuck, more;
        slot, id, stuck, more := AcquireScope(policy, scopes[i], tokens);
        AcquiredStays(before, s, old(mine), held, ids, acquired, policy.concurrentRequests);
        LaterOn(old(s), before, s, old(mine), held);
        AsksPrefix(policy, scopes, i, tokens);
        RanOn(got, Asks(policy, scopes[..i], tokens), more,
              RateAsks(policy, scopes[i], tokens) + SlotAsks(policy, scopes[i]), OutcomeOf(slot));
        got := got + more;
        if slot.Failure? {
          before := s;
          assert mine - stuck == held;
          leaked := RollBack(acquired, ids, old(mine), stuck, policy.concurrentRequests);
          LaterOn(old(s), before, s, old(mine), old(mine));
          SameOutcome(slot, scopes);
          RanUpTo(got, policy, scopes, i + 1, tokens, OutcomeOf(slot));
          return Failure(slot.error), ids, leaked, got;
        }
        SameOutcome(slot, scopes);
        LeaseKeysSnoc(policy, scopes, i);
        if slot.value.Some? {
          OneMore(s, old(mine), held, ids, acquired, id, slot.value.value, policy.concurrentRequests);
          acquired, ids := acquired + [slot.value.value], ids + [id];
        }
      }
      assert scopes[..|scopes|] == scopes;
      SameOutcome(Success(()), scopes);
      return Success(Lease(acquired)), ids, leaked, got;
    }
  }

  lemma SameOutcome<T>(r: AppResult<T>, scopes: seq<LimitScope>)
    ensures r.Success? <==> OutcomeOf(r) == Passed
    ensures r.Failure? ==> OutcomeOf(r) == OutcomeOf<Lease>(Failure(r.error))
    ensures forall lease: Lease :: OutcomeOf(Success(lease)) == Passed
  {
  }

  /** On top of `base` exactly one slot for each of the keys, granted within the limit. */
  predicate Acquired(s: S.State, base: set<SlotId>, mine: set<SlotId>, ids: seq<SlotId>, keys: seq<string>, limit: nat) {
    OneEach(s, ids, keys) && AllGranted(s, ids, limit) && SetOf(ids) !! base && mine == base + SetOf(ids)
  }

  lemma AcquiredStays(s: S.State, s': S.State, base: set<SlotId>, mine: set<SlotId>, ids: seq<SlotId>, keys: seq<string>, limit: nat)
    requires Acquired(s, base, mine, ids, keys, limit) && Keeps(s, s', mine)
    ensures Acquired(s', base, mine, ids, keys, limit) && base <= mine && mine == base + SetOf(ids)
  {
    hide Keeps, OneEach, SetOf, AllGranted;
    KeepsOneEach(s, s', mine, ids, keys);
  }

  lemma AcquiredSlots(s: S.State, base: set<SlotId>, mine: set<SlotId>, stuck: set<SlotId>, ids: seq<SlotId>, keys: seq<string>,
                      limit: nat)
    requires stuck <= mine && Acquired(s, base, mine - stuck, ids, keys, limit)
    ensures OneEach(s, ids, keys) && SetOf(ids) <= mine - stuck && SetOf(ids) !! base && mine - stuck == base + SetOf(ids)
  {
    hide OneEach, AllGranted, SetOf;
  }

  lemma LeakedSlots(base: set<SlotId>, mine: set<SlotId>, stuck: set<SlotId>, all: set<SlotId>, left: set<SlotId>)
    requires stuck <= mine && mine - stuck == base + all && all !! base && left <= all
    ensures mine - all == base + stuck && base <= mine - all
    ensures mine - all + left == base + (stuck + left) && (stuck + left) !! base && |stuck + left| <= |stuck| + |left|
  {
    assert stuck !! left;
  }

  lemma {:induction false} NothingAsked(policy: Policy, scopes: seq<LimitScope>, tokens: nat)
    requires policy.IsDisabled()
    ensures Asks(policy, scopes, tokens) == []
  {
    if scopes != [] {
      NothingAsked(policy, scopes[..|scopes| - 1], tokens);
    }
  }

  lemma NoneYet(s: S.State, mine: set<SlotId>, policy: Policy, scopes: seq<LimitScope>, tokens: nat)
    ensures Acquired(s, mine, mine, [], [], policy.concurrentRequests) && !DOWN.LimitExceeded?
    ensures Ran([], Asks(policy, scopes[..0], tokens), Passed)
    ensures Ran([], Asks(policy, scopes, tokens), OutcomeOf<Lease>(Failure(DOWN)))
    ensures policy.IsDisabled() || scopes == [] ==> Ran([], Asks(policy, scopes, tokens), OutcomeOf(Success(Lease([]))))
    ensures LeaseKeys(policy, scopes[..0]) == [] && (policy.IsDisabled() || scopes == [] ==> LeaseKeys(policy, scopes) == [])
  {
    if policy.IsDisabled() {
      NothingAsked(policy, scopes, tokens);
    }
  }

  lemma OneMore(s: S.State, base: set<SlotId>, mine: set<SlotId>, ids: seq<SlotId>, keys: seq<string>, id: SlotId, key: string,
                limit: nat)
    requires Acquired(s, base, mine, ids, keys, limit) && id !in mine
    requires id in s.slots && s.slots[id].key == key && GrantedFor(s.slots[id], limit)
    ensures Acquired(s, base, mine + {id}, ids + [id], keys + [key], limit)
  {
    assert forall i :: 0 <= i < |ids| ==> ids[i] in SetOf(ids);
    assert SetOf(ids + [id]) == SetOf(ids) + {id};
  }
}
