/** Concurrency slots of the runtime limiter over every run: many clients take and give back
    slots, script by script, while keys may expire at any moment. */
module LimitSlots {
  import opened Limits

  type SlotId = nat

  /** A slot a client owes to the store: taken by one increment, to be given back by one release.
      It is granted unless the count it got was over the limit. */
  datatype Slot = Slot(key: string, limit: nat, granted: bool, takenAt: Time)

  datatype State = State(store: Store, slots: map<SlotId, Slot>, nextSlot: SlotId)

  const EMPTY := State(map[], map[], 0)

  datatype Op =
    | Take(key: string, limit: nat, ttl: nat, now: Time)
    | GiveBack(slot: SlotId)
    | Expire(key: string)

  predicate Enabled(s: State, op: Op) {
    op.GiveBack? ==> op.slot in s.slots
  }

  function Apply(s: State, op: Op): State
    requires Enabled(s, op)
  {
    match op
    case Take(key, limit, ttl, now) =>
      var store := Incremented(s.store, key, ttl, 1, now);
      State(store, s.slots[s.nextSlot := Slot(key, limit, Value(store, key) <= limit, now)], s.nextSlot + 1)
    case GiveBack(id) => s.(store := Released(s.store, s.slots[id].key), slots := s.slots - {id})
    case Expire(key) => s.(store := s.store - {key})
  }

  predicate Legal(s: State, ops: seq<Op>)
    decreases |ops|
  {
    ops == [] || (Enabled(s, ops[0]) && Legal(Apply(s, ops[0]), ops[1..]))
  }

  function After(s: State, ops: seq<Op>): State
    requires Legal(s, ops)
    decreases |ops|
  {
    if ops == [] then s else After(Apply(s, ops[0]), ops[1..])
  }

  function SlotsOf(s: State, key: string): set<SlotId> {
    set id | id in s.slots && s.slots[id].key == key
  }

  function Granted(s: State, key: string): set<SlotId> {
    set id | id in s.slots && s.slots[id].key == key && s.slots[id].granted
  }

  predicate SlotIdsOk(s: State) {
    forall id :: id in s.slots ==> id < s.nextSlot
  }

  /** A counter that is there is at least one and at most the outstanding slots. */
  predicate Bounded(s: State, key: string) {
    SlotIdsOk(s) && (key in s.store ==> 1 <= s.store[key].count <= |SlotsOf(s, key)|)
  }

  /** The counter is the outstanding slots, and no more are granted than the limit. */
  predicate Exact(s: State, key: string, limit: nat) {
    SlotIdsOk(s) && Value(s.store, key) == |SlotsOf(s, key)| && |Granted(s, key)| <= limit
  }

  /** What a step does to the sets of slots of a key. */
  lemma SlotsStep(s: State, op: Op, key: string)
    requires SlotIdsOk(s) && Enabled(s, op)
    ensures var s' := Apply(s, op);
            && SlotIdsOk(s')
            && (op.Take? ==>
                  && SlotsOf(s', key) == SlotsOf(s, key) + (if op.key == key then {s.nextSlot} else {})
                  && Granted(s', key) == Granted(s, key) + (if op.key == key && Value(s'.store, key) <= op.limit then {s.nextSlot} else {})
                  && s.nextSlot !in SlotsOf(s, key) && s.nextSlot !in Granted(s, key))
            && (op.GiveBack? ==> SlotsOf(s', key) == SlotsOf(s, key) - {op.slot} && Granted(s', key) == Granted(s, key) - {op.slot})
            && (op.Expire? ==> s'.slots == s.slots)
            && Granted(s, key) <= SlotsOf(s, key)
  {
    hide Incremented, Released, Value;
  }

  /** What a step does to the counter of a key. */
  lemma CounterStep(s: State, op: Op, key: string)
    requires Enabled(s, op) && (key in s.store ==> s.store[key].count >= 1)
    ensures var s' := Apply(s, op);
            && (key in s'.store ==> s'.store[key].count >= 1)
            && (op.Take? ==> Value(s'.store, key) == Value(s.store, key) + if op.key == key then 1 else 0)
            && (op.GiveBack? ==>
                  Value(s'.store, key) == Value(s.store, key) - if s.slots[op.slot].key == key && key in s.store then 1 else 0)
            && (op.Expire? ==> Value(s'.store, key) == if op.key == key then 0 else Value(s.store, key))
  {
  }

  lemma Cardinalities(a: set<SlotId>, b: set<SlotId>, id: SlotId)
    ensures a == b + {id} && id !in b ==> |a| == |b| + 1
    ensures a == b - {id} ==> |a| == |b| - if id in b then 1 else 0
    ensures a <= b ==> |a| <= |b|
  {
    if a <= b {
      assert |b| == |a| + |b - a| by { assert b == a + (b - a); }
    }
  }

  lemma StepKeepsBounded(s: State, op: Op, key: string)
    requires Bounded(s, key) && Enabled(s, op)
    ensures Bounded(Apply(s, op), key)
  {
    hide SlotsOf, Granted, Apply, SlotIdsOk;
    SlotsStep(s, op, key);
    CounterStep(s, op, key);
    Cardinalities(SlotsOf(Apply(s, op), key), SlotsOf(s, key), if op.GiveBack? then op.slot else s.nextSlot);
    if op.GiveBack? {
      SlotIsOf(s, op.slot, key);
    }
    assert op.Expire? ==> SlotsOf(Apply(s, op), key) == SlotsOf(s, key) by { SameSlots(s, Apply(s, op), key); }
  }

  lemma SlotIsOf(s: State, id: SlotId, key: string)
    requires id in s.slots
    ensures id in SlotsOf(s, key) <==> s.slots[id].key == key
  {
  }

  lemma SameSlots(s: State, s': State, key: string)
    ensures s'.slots == s.slots ==> SlotsOf(s', key) == SlotsOf(s, key) && Granted(s', key) == Granted(s, key)
  {
  }

  /** The step is not an expiry of a counter that is there. */
  predicate Harmless(s: State, op: Op, key: string) {
    op == Expire(key) ==> key !in s.store
  }

  lemma StepKeepsExact(s: State, op: Op, key: string, limit: nat)
    requires Bounded(s, key) && Exact(s, key, limit) && Enabled(s, op)
    requires Harmless(s, op, key) && (op.Take? && op.key == key ==> op.limit == limit)
    ensures Exact(Apply(s, op), key, limit)
  {
    hide SlotsOf, Granted, Apply, SlotIdsOk;
    var s' := Apply(s, op);
    var id := if op.GiveBack? then op.slot else s.nextSlot;
    SlotsStep(s, op, key);
    CounterStep(s, op, key);
    Cardinalities(SlotsOf(s', key), SlotsOf(s, key), id);
    Cardinalities(Granted(s', key), Granted(s, key), id);
    SlotsStep(s', Expire(""), key);
    Cardinalities(Granted(s', key), SlotsOf(s', key), id);
    if op.GiveBack? {
      SlotIsOf(s, op.slot, key);
      PresentWhenOwed(s, key);
    }
    SameSlots(s, s', key);
  }

  lemma PresentWhenOwed(s: State, key: string)
    requires Value(s.store, key) == |SlotsOf(s, key)|
    ensures |SlotsOf(s, key)| > 0 ==> key in s.store
    ensures forall id :: id in SlotsOf(s, key) ==> |SlotsOf(s, key)| > 0
  {
  }

  lemma {:induction false} RunKeepsBounded(s: State, ops: seq<Op>, key: string)
    requires Bounded(s, key) && Legal(s, ops)
    ensures Bounded(After(s, ops), key)
    decreases |ops|
  {
    hide Bounded, Apply, Enabled;
    if ops != [] {
      StepKeepsBounded(s, ops[0], key);
      RunKeepsBounded(Apply(s, ops[0]), ops[1..], key);
    }
  }

  /** Any interleaving of takes, undone takes, releases and expiries, from an empty store: a
      counter that is there is positive and at most the outstanding slots, so that it is gone
      once all of them are returned. */
  lemma CounterNeverOvercounts(ops: seq<Op>, key: string)
    requires Legal(EMPTY, ops)
    ensures var s := After(EMPTY, ops);
            && (key in s.store ==> 1 <= s.store[key].count <= |SlotsOf(s, key)|)
            && (SlotsOf(s, key) == {} ==> key !in s.store)
  {
    RunKeepsBounded(EMPTY, ops, key);
  }

  /** Every expiry of the key finds it absent. */
  predicate HarmlessExpiries(s: State, ops: seq<Op>, key: string)
    requires Legal(s, ops)
    decreases |ops|
  {
    ops == [] || (Harmless(s, ops[0], key) && HarmlessExpiries(Apply(s, ops[0]), ops[1..], key))
  }

  predicate OneLimit(ops: seq<Op>, key: string, limit: nat) {
    forall i :: 0 <= i < |ops| && ops[i].Take? && ops[i].key == key ==> ops[i].limit == limit
  }

  lemma {:induction false} RunKeepsExact(s: State, ops: seq<Op>, key: string, limit: nat)
    requires Bounded(s, key) && Exact(s, key, limit) && Legal(s, ops)
    requires HarmlessExpiries(s, ops, key) && OneLimit(ops, key, limit)
    ensures Exact(After(s, ops), key, limit)
    decreases |ops|
  {
    hide Bounded, Exact, Apply, Enabled, Harmless;
    if ops != [] {
      StepKeepsBounded(s, ops[0], key);
      StepKeepsExact(s, ops[0], key, limit);
      RunKeepsExact(Apply(s, ops[0]), ops[1..], key, limit);
    }
  }

  /** While no expiry removes the key, the counter is exactly the outstanding slots, and at no time
      are more slots granted than the limit. */
  lemma GrantsStayWithinLimit(ops: seq<Op>, key: string, limit: nat)
    requires Legal(EMPTY, ops) && HarmlessExpiries(EMPTY, ops, key) && OneLimit(ops, key, limit)
    ensures var s := After(EMPTY, ops);
            && Value(s.store, key) == |SlotsOf(s, key)| && |Granted(s, key)| <= limit
            && (key in s.store <==> SlotsOf(s, key) != {})
  {
    RunKeepsBounded(EMPTY, ops, key);
    RunKeepsExact(EMPTY, ops, key, limit);
  }

  // ----- When an expiry is harmless -----

  /** Whatever clients do from here on: while no later expiry removes the key, no more slots are
      granted than the limit. */
  ghost predicate StaysWithin(s: State, key: string, limit: nat) {
    forall ops :: Legal(s, ops) && HarmlessExpiries(s, ops, key) && OneLimit(ops, key, limit) ==>
      |Granted(After(s, ops), key)| <= limit
  }

  /** A run that keeps to the rules above, from `s` to `s'`. */
  ghost predicate Leads(s: State, ops: seq<Op>, s': State, key: string, limit: nat) {
    && Legal(s, ops) && After(s, ops) == s'
    && HarmlessExpiries(s, ops, key) && OneLimit(ops, key, limit)
  }

  lemma LeadsNowhere(s: State, key: string, limit: nat)
    ensures Leads(s, [], s, key, limit)
  {
  }

  lemma LeadsOneMore(s: State, op: Op, ops: seq<Op>, s': State, key: string, limit: nat)
    requires Enabled(s, op) && Harmless(s, op, key) && (op.Take? && op.key == key ==> op.limit == limit)
    requires Leads(Apply(s, op), ops, s', key, limit)
    ensures Leads(s, [op] + ops, s', key, limit)
  {
    hide Apply, Enabled, Harmless;
    assert ([op] + ops)[0] == op && ([op] + ops)[1..] == ops;
  }

  /** One take within the limit is granted. */
  lemma TakeGrants(s: State, key: string, limit: nat)
    requires SlotIdsOk(s) && Value(s.store, key) < limit
    ensures var s' := Apply(s, Take(key, limit, 1, 0));
            && SlotIdsOk(s') && Value(s'.store, key) == Value(s.store, key) + 1
            && |Granted(s', key)| == |Granted(s, key)| + 1
            && SlotsOf(s, key) <= SlotsOf(s', key)
            && (forall id :: id in s.slots ==> id in s'.slots && s'.slots[id] == s.slots[id])
  {
    hide Granted;
    var s' := Apply(s, Take(key, limit, 1, 0));
    SlotsStep(s, Take(key, limit, 1, 0), key);
    Cardinalities(Granted(s', key), Granted(s, key), s.nextSlot);
  }

  lemma {:induction false} TakeUpTo(s: State, key: string, limit: nat) returns (ops: seq<Op>, s': State)
    requires SlotIdsOk(s) && 0 <= Value(s.store, key) <= limit
    ensures Leads(s, ops, s', key, limit) && SlotIdsOk(s')
    ensures Value(s'.store, key) == limit
    ensures |Granted(s', key)| == |Granted(s, key)| + limit - Value(s.store, key)
    ensures forall id :: id in s.slots ==> id in s'.slots && s'.slots[id] == s.slots[id]
    decreases limit - Value(s.store, key)
  {
    hide Apply, Granted, SlotsOf, SlotIdsOk, Leads, Value;
    if Value(s.store, key) == limit {
      LeadsNowhere(s, key, limit);
      return [], s;
    }
    var op := Take(key, limit, 1, 0);
    TakeGrants(s, key, limit);
    ops, s' := TakeUpTo(Apply(s, op), key, limit);
    LeadsOneMore(s, op, ops, s', key, limit);
    ops := [op] + ops;
  }

  /** With a slot outstanding and no counter, more slots than the limit can be granted: a full limit
      on top of a granted slot, or once more in place of a refused one. */
  lemma LostCountBreaksLimit(s: State, key: string, limit: nat, owed: SlotId) returns (ops: seq<Op>, s': State)
    requires SlotIdsOk(s) && key !in s.store && limit >= 1 && owed in s.slots && s.slots[owed].key == key
    ensures Leads(s, ops, s', key, limit) && |Granted(s', key)| > limit
  {
    hide Apply, Granted, SlotsOf, SlotIdsOk, Leads;
    ops, s' := TakeUpTo(s, key, limit);
    if |Granted(s, key)| == 0 {
      var mid := s';
      NotGranted(s, owed, key);
      var op := GiveBack(owed);
      GiveBackRefused(mid, owed, key);
      TakeGrants(Apply(mid, op), key, limit);
      var take := Take(key, limit, 1, 0);
      s' := Apply(Apply(mid, op), take);
      LeadsNowhere(s', key, limit);
      LeadsOneMore(Apply(mid, op), take, [], s', key, limit);
      LeadsOneMore(mid, op, [take] + [], s', key, limit);
      LeadsOn(s, ops, mid, [op] + ([take] + []), s', key, limit);
      ops := ops + ([op] + ([take] + []));
    }
  }

  lemma NotGranted(s: State, id: SlotId, key: string)
    requires id in s.slots && s.slots[id].key == key && |Granted(s, key)| == 0
    ensures !s.slots[id].granted
  {
    assert s.slots[id].granted ==> id in Granted(s, key);
  }

  lemma GiveBackRefused(s: State, id: SlotId, key: string)
    requires SlotIdsOk(s) && id in s.slots && s.slots[id].key == key && !s.slots[id].granted
    requires key in s.store && s.store[key].count >= 1
    ensures var s' := Apply(s, GiveBack(id));
            && SlotIdsOk(s') && Value(s'.store, key) == Value(s.store, key) - 1 && Granted(s', key) == Granted(s, key)
  {
  }

  lemma {:induction false} LeadsOn(s: State, a: seq<Op>, mid: State, b: seq<Op>, s': State, key: string, limit: nat)
    requires Leads(s, a, mid, key, limit) && Leads(mid, b, s', key, limit)
    ensures Leads(s, a + b, s', key, limit)
    decreases |a|
  {
    hide Apply, Enabled, Harmless;
    if a == [] {
      assert a + b == b;
    } else {
      LeadsOn(Apply(s, a[0]), a[1..], mid, b, s', key, limit);
      assert a + b == [a[0]] + (a[1..] + b);
      LeadsOneMore(s, a[0], a[1..] + b, s', key, limit);
    }
  }

  lemma AfterExpiry(s: State, key: string, limit: nat)
    requires Bounded(s, key) && Exact(s, key, limit)
    ensures var s' := Apply(s, Expire(key));
            && Bounded(s', key) && key !in s'.store && s'.slots == s.slots
            && (key in s.store <==> SlotsOf(s, key) != {})
            && (SlotsOf(s, key) == {} ==> Exact(s', key, limit))
  {
    assert SlotsOf(Apply(s, Expire(key)), key) == SlotsOf(s, key);
    assert SlotsOf(s, key) == {} ==> Granted(Apply(s, Expire(key)), key) == {};
  }

  /** An expiry is harmless exactly when no slot is outstanding, which the store can tell: when
      there is no counter to expire. Any other expiry lets more slots be granted than the limit. */
  lemma ExpiryIsHarmlessExactly(s: State, key: string, limit: nat)
    requires Bounded(s, key) && Exact(s, key, limit) && limit >= 1
    ensures StaysWithin(Apply(s, Expire(key)), key, limit) <==> SlotsOf(s, key) == {}
    ensures StaysWithin(Apply(s, Expire(key)), key, limit) <==> key !in s.store
  {
    hide Bounded, Exact, Apply, Granted, SlotsOf;
    AfterExpiry(s, key, limit);
    var s' := Apply(s, Expire(key));
    if SlotsOf(s, key) == {} {
      forall ops | Legal(s', ops) && HarmlessExpiries(s', ops, key) && OneLimit(ops, key, limit)
        ensures |Granted(After(s', ops), key)| <= limit
      {
        RunKeepsExact(s', ops, key, limit);
        ExactIsWithin(After(s', ops), key, limit);
      }
    } else {
      var owed :| owed in SlotsOf(s, key);
      OwedIsThere(s, key, owed);
      BoundedIds(s', key);
      var ops, end := LostCountBreaksLimit(s', key, limit, owed);
      assert Legal(s', ops) && |Granted(After(s', ops), key)| > limit;
    }
  }

  lemma ExactIsWithin(s: State, key: string, limit: nat)
    requires Exact(s, key, limit)
    ensures |Granted(s, key)| <= limit
  {
  }

  lemma OwedIsThere(s: State, key: string, id: SlotId)
    requires id in SlotsOf(s, key)
    ensures id in s.slots && s.slots[id].key == key
  {
  }

  lemma BoundedIds(s: State, key: string)
    requires Bounded(s, key)
    ensures SlotIdsOk(s)
  {
  }

  /** A run that shows it: two slots out of one are granted. */
  lemma ExpiryBreaksLimit(key: string, ttl: nat, now: Time)
    ensures var ops := [Take(key, 1, ttl, now), Expire(key), Take(key, 1, ttl, now + Ttl(ttl))];
            Legal(EMPTY, ops) && |Granted(After(EMPTY, ops), key)| == 2
  {
    var ops := [Take(key, 1, ttl, now), Expire(key), Take(key, 1, ttl, now + Ttl(ttl))];
    var s1 := Apply(EMPTY, ops[0]);
    var s2 := Apply(s1, ops[1]);
    var s3 := Apply(s2, ops[2]);
    assert ops[1..][0] == ops[1] && ops[1..][1..] == [ops[2]] && [ops[2]][1..] == [];
    assert Legal(s2, [ops[2]]) && After(s2, [ops[2]]) == s3;
    assert Legal(s1, ops[1..]) && After(s1, ops[1..]) == s3;
    assert s3.slots == map[0 := Slot(key, 1, true, now), 1 := Slot(key, 1, true, now + Ttl(ttl))];
    assert Granted(s3, key) == {0, 1};
  }
}

/** One rate counter over time: every increment at its moment, and an exact expiry. */
module LimitWindow {
  import opened Limits
  import opened Core

  datatype Bump = Bump(time: Time, amount: nat)

  /** Increments of one counter in the order the store runs them. */
  predicate Ordered(trace: seq<Bump>) {
    && (forall i :: 0 <= i < |trace| ==> trace[i].amount >= 1)
    && (forall i, j :: 0 <= i < j < |trace| ==> trace[i].time <= trace[j].time)
  }

  predicate Live(counter: Counter, time: Time) {
    counter.expiresAt.None? || time < counter.expiresAt.value
  }

  /** The store with the one key, as an increment at `time` finds it. */
  function Found(counter: Option<Counter>, time: Time): Store {
    if counter.Some? && Live(counter.value, time) then map["" := counter.value] else map[]
  }

  function CounterAfter(trace: seq<Bump>, window: nat): Option<Counter> {
    if trace == [] then None
    else
      var last := trace[|trace| - 1];
      var store := Incremented(Found(CounterAfter(trace[..|trace| - 1], window), last.time), "", window, last.amount, last.time);
      Some(store[""])
  }

  /** The last increment found no live counter and opened a window. */
  predicate Opens(trace: seq<Bump>, window: nat)
    requires trace != []
  {
    Found(CounterAfter(trace[..|trace| - 1], window), trace[|trace| - 1].time) == map[]
  }

  /** The moment the current window was opened. */
  function OpenedAt(trace: seq<Bump>, window: nat): Time
    requires trace != []
  {
    if |trace| == 1 || Opens(trace, window) then trace[|trace| - 1].time else OpenedAt(trace[..|trace| - 1], window)
  }

  /** The last increment passes the check. */
  predicate Passes(trace: seq<Bump>, window: nat, limit: nat)
    requires trace != []
  {
    CounterAfter(trace, window).value.count <= limit
  }

  function PassedAmount(trace: seq<Bump>, window: nat, limit: nat): nat
    requires trace != []
  {
    if Passes(trace, window, limit) then trace[|trace| - 1].amount else 0
  }

  /** What passed in the current window. */
  function PassedInWindow(trace: seq<Bump>, window: nat, limit: nat): nat {
    if trace == [] then 0
    else
      PassedAmount(trace, window, limit) + if Opens(trace, window) then 0 else PassedInWindow(trace[..|trace| - 1], window, limit)
  }

  /** What passed at times in `[from, to)`. */
  function PassedBetween(trace: seq<Bump>, window: nat, limit: nat, from: Time, to: Time): nat {
    if trace == [] then 0
    else
      PassedBetween(trace[..|trace| - 1], window, limit, from, to) +
      if from <= trace[|trace| - 1].time < to then PassedAmount(trace, window, limit) else 0
  }

  lemma OrderedInit(trace: seq<Bump>)
    requires trace != [] && Ordered(trace)
    ensures var init := trace[..|trace| - 1];
            Ordered(init) && (init != [] ==> init[|init| - 1].time <= trace[|trace| - 1].time)
  {
  }

  /** Every counter carries the expiry set when its window was opened, and lives no longer. */
  lemma {:induction false} CounterExpires(trace: seq<Bump>, window: nat)
    requires trace != [] && Ordered(trace)
    ensures var counter := CounterAfter(trace, window).value;
            && counter.expiresAt == Some(OpenedAt(trace, window) + Ttl(window))
            && counter.count >= trace[|trace| - 1].amount
            && OpenedAt(trace, window) <= trace[|trace| - 1].time < OpenedAt(trace, window) + Ttl(window)
  {
    OrderedInit(trace);
    if |trace| > 1 {
      CounterExpires(trace[..|trace| - 1], window);
    }
  }

  /** What passes in one window sums to at most the limit. */
  lemma {:induction false} WindowBound(trace: seq<Bump>, window: nat, limit: nat)
    requires Ordered(trace)
    ensures PassedInWindow(trace, window, limit) <= limit
    ensures trace != [] ==> PassedInWindow(trace, window, limit) <= CounterAfter(trace, window).value.count
  {
    if trace != [] {
      OrderedInit(trace);
      WindowBound(trace[..|trace| - 1], window, limit);
    }
  }

  /** Whatever passed since the current window was opened passed in it, on top of the increment
      that opened it. */
  lemma {:induction false} SinceOpening(trace: seq<Bump>, window: nat, limit: nat, from: Time, to: Time)
    requires trace != [] && Ordered(trace) && from > OpenedAt(trace, window) && limit >= 1
    ensures PassedBetween(trace, window, limit, from, to) <= limit - 1
    ensures PassedBetween(trace, window, limit, from, to) < CounterAfter(trace, window).value.count
  {
    OrderedInit(trace);
    CounterExpires(trace, window);
    var init := trace[..|trace| - 1];
    if |trace| == 1 {
    } else if Opens(trace, window) {
      OpeningIsLate(trace, window);
      NothingPassedLater(init, window, limit, from, to);
    } else {
      SinceOpening(init, window, limit, from, to);
    }
  }

  /** A window opens only after the one before it has run its full time. */
  lemma OpeningIsLate(trace: seq<Bump>, window: nat)
    requires |trace| > 1 && Ordered(trace) && Opens(trace, window)
    ensures var init := trace[..|trace| - 1];
            && trace[|trace| - 1].time >= OpenedAt(init, window) + Ttl(window)
            && init[|init| - 1].time < trace[|trace| - 1].time
  {
    OrderedInit(trace);
    CounterExpires(trace[..|trace| - 1], window);
  }

  lemma {:induction false} NothingPassedLater(trace: seq<Bump>, window: nat, limit: nat, from: Time, to: Time)
    requires Ordered(trace) && (trace != [] ==> trace[|trace| - 1].time < from)
    ensures PassedBetween(trace, window, limit, from, to) == 0
  {
    if trace != [] {
      OrderedInit(trace);
      NothingPassedLater(trace[..|trace| - 1], window, limit, from, to);
    }
  }

  /** A span no longer than a window that ends after the last increment meets two windows at most. */
  lemma {:induction false} TwoWindows(trace: seq<Bump>, window: nat, limit: nat, from: Time, to: Time)
    requires trace != [] && Ordered(trace) && from + Ttl(window) > OpenedAt(trace, window) && limit >= 1
    ensures PassedBetween(trace, window, limit, from, to) <= PassedInWindow(trace, window, limit) + limit - 1
  {
    hide CounterAfter, Opens, Incremented;
    OrderedInit(trace);
    var init := trace[..|trace| - 1];
    if |trace| == 1 {
    } else if Opens(trace, window) {
      OpeningIsLate(trace, window);
      SinceOpening(init, window, limit, from, to);
    } else {
      TwoWindows(init, window, limit, from, to);
    }
  }

  /** In any span of the window's length, what passes sums to less than twice the limit. */
  lemma {:induction false} AnySpanBound(trace: seq<Bump>, window: nat, limit: nat, from: Time)
    requires Ordered(trace) && limit >= 1
    ensures PassedBetween(trace, window, limit, from, from + Ttl(window)) < 2 * limit
  {
    hide CounterAfter, Opens, Incremented, PassedAmount;
    if trace != [] {
      OrderedInit(trace);
      CounterExpires(trace, window);
      if trace[|trace| - 1].time >= from + Ttl(window) {
        AnySpanBound(trace[..|trace| - 1], window, limit, from);
      } else {
        TwoWindows(trace, window, limit, from, from + Ttl(window));
        WindowBound(trace, window, limit);
      }
    }
  }

  /** A limit's worth just before a window ends, another just after. */
  function TwoBursts(window: nat, limit: nat, start: Time): seq<Bump>
    requires limit >= 1
  {
    var end := start + Ttl(window);
    if limit == 1 then [Bump(start, 1), Bump(end, 1)]
    else [Bump(start, 1), Bump(end - 1, limit - 1), Bump(end, limit)]
  }

  /** No smaller bound holds, for any limit and any window longer than the clock's unit. */
  lemma SpanBoundIsAttained(window: nat, limit: nat, start: Time)
    requires limit >= 1 && Ttl(window) >= 2
    ensures var trace, end := TwoBursts(window, limit, start), start + Ttl(window);
            && Ordered(trace)
            && PassedBetween(trace, window, limit, end - 1, end - 1 + Ttl(window)) == 2 * limit - 1
  {
    var end := start + Ttl(window);
    var trace := TwoBursts(window, limit, start);
    assert trace[..1] == [Bump(start, 1)];
    assert CounterAfter(trace[..1], window) == Some(Counter(1, Some(end)));
    assert PassedBetween(trace[..1], window, limit, end - 1, end - 1 + Ttl(window)) == 0;
    if limit > 1 {
      assert trace[..2] == [Bump(start, 1), Bump(end - 1, limit - 1)] && trace[..2][..1] == trace[..1];
      assert CounterAfter(trace[..2], window) == Some(Counter(limit, Some(end)));
      assert PassedBetween(trace[..2], window, limit, end - 1, end - 1 + Ttl(window)) == limit - 1;
    }
  }

  /** A window of one unit is a span of its own: there what passes sums to at most the limit. */
  lemma {:induction false} UnitSpanBound(trace: seq<Bump>, window: nat, limit: nat, from: Time)
    requires Ordered(trace) && Ttl(window) == 1
    ensures PassedBetween(trace, window, limit, from, from + 1) <= limit
    ensures trace != [] && trace[|trace| - 1].time == from ==>
              PassedBetween(trace, window, limit, from, from + 1) <= PassedInWindow(trace, window, limit)
  {
    hide CounterAfter, Incremented, PassedAmount;
    if trace != [] {
      OrderedInit(trace);
      CounterExpires(trace, window);
      WindowBound(trace, window, limit);
      var init := trace[..|trace| - 1];
      UnitSpanBound(init, window, limit, from);
      if init != [] && Opens(trace, window) {
        OpeningIsLate(trace, window);
      }
      if trace[|trace| - 1].time == from && (init == [] || init[|init| - 1].time < from) {
        NothingPassedLater(init, window, limit, from, from + 1);
      } else if init != [] {
        CounterExpires(init, window);
      }
    }
  }
}
