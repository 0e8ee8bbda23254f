/** Concurrency slots with exact expiry: a key goes `lease_seconds` after the increment that made
    it, however short the requests are. */
module LimitLeases {
  import opened Core
  import opened Limits
  import opened LimitSlots

  /** One script, or the expiry of a key, at its moment. */
  datatype Timed = At(time: Time, op: Op)

  /** A key expires when its time has come and is gone before anything else happens then; takes set
      the one lease time; and nobody holds a slot for as long as a lease. */
  predicate Punctual(s: State, at: Timed, lease: nat) {
    && Enabled(s, at.op)
    && (at.op.Take? ==> at.op.now == at.time && at.op.ttl == lease)
    && (at.op.Expire? ==>
          at.op.key in s.store && s.store[at.op.key].expiresAt.Some? && at.time >= s.store[at.op.key].expiresAt.value)
    && (!at.op.Expire? ==>
          forall key :: key in s.store ==> s.store[key].expiresAt.Some? && at.time < s.store[key].expiresAt.value)
    && (forall id :: id in s.slots ==> at.time < s.slots[id].takenAt + Ttl(lease))
  }

  predicate InTime(s: State, run: seq<Timed>, lease: nat, from: Time)
    decreases |run|
  {
    run == [] ||
    (run[0].time >= from && Punctual(s, run[0], lease) && InTime(Apply(s, run[0].op), run[1..], lease, run[0].time))
  }

  function Last(s: State, run: seq<Timed>, lease: nat, from: Time): State
    requires InTime(s, run, lease, from)
    decreases |run|
  {
    if run == [] then s else Last(Apply(s, run[0].op), run[1..], lease, run[0].time)
  }

  predicate SameLimit(run: seq<Timed>, key: string, limit: nat) {
    forall i :: 0 <= i < |run| && run[i].op.Take? && run[i].op.key == key ==> run[i].op.limit == limit
  }

  /** A run with one limit from `s` to `s'` within the times `from` and `to`. */
  ghost predicate Goes(s: State, run: seq<Timed>, s': State, key: string, limit: nat, lease: nat, from: Time, to: Time) {
    && InTime(s, run, lease, from) && Last(s, run, lease, from) == s' && SameLimit(run, key, limit)
    && from <= to && (forall i :: 0 <= i < |run| ==> run[i].time <= to)
  }

  lemma Stay(s: State, key: string, limit: nat, lease: nat, from: Time, to: Time)
    requires from <= to
    ensures Goes(s, [], s, key, limit, lease, from, to)
  {
  }

  lemma OneMore(s: State, at: Timed, run: seq<Timed>, s': State, key: string, limit: nat, lease: nat, to: Time)
    requires Punctual(s, at, lease) && (at.op.Take? ==> at.op.limit == limit)
    requires Goes(Apply(s, at.op), run, s', key, limit, lease, at.time, to)
    ensures Goes(s, [at] + run, s', key, limit, lease, at.time, to)
  {
    hide Punctual, Apply;
    assert ([at] + run)[0] == at && ([at] + run)[1..] == run;
  }

  lemma {:induction false} Join(s: State, a: seq<Timed>, mid: State, b: seq<Timed>, s': State,
                               key: string, limit: nat, lease: nat, from: Time, at: Time, to: Time)
    requires Goes(s, a, mid, key, limit, lease, from, at) && Goes(mid, b, s', key, limit, lease, at, to)
    ensures Goes(s, a + b, s', key, limit, lease, from, to)
    decreases |a|
  {
    hide Apply;
    if a == [] {
      assert a + b == b;
      Earlier(mid, b, lease, at, from);
    } else {
      Join(Apply(s, a[0].op), a[1..], mid, b, s', key, limit, lease, a[0].time, at, to);
      assert a + b == [a[0]] + (a[1..] + b);
      assert (a + b)[1..] == a[1..] + b;
    }
  }

  lemma Earlier(s: State, run: seq<Timed>, lease: nat, at: Time, from: Time)
    requires InTime(s, run, lease, at) && from <= at
    ensures InTime(s, run, lease, from) && Last(s, run, lease, from) == Last(s, run, lease, at)
  {
  }

  // ----- The states of the run -----

  /** Only slots of `key`: the granted ones `g`, none taken before `since`, and the refused ones `r`,
      none before `late`; the counter `count` goes at `expires`. */
  datatype Setting = Setting(count: nat, expires: Time, g: set<SlotId>, r: set<SlotId>, since: Time, late: Time)

  predicate Has(s: State, key: string, x: Setting) {
    && s.store == (if x.count == 0 then map[] else map[key := Counter(x.count, Some(x.expires))])
    && SlotIdsOk(s) && s.slots.Keys == x.g + x.r && x.g !! x.r && x.since <= x.late
    && (forall id :: id in x.g ==> s.slots[id].key == key && s.slots[id].granted && s.slots[id].takenAt >= x.since)
    && (forall id :: id in x.r ==> s.slots[id].key == key && !s.slots[id].granted && s.slots[id].takenAt >= x.late)
  }

  /** Scripts can run at `time`. */
  predicate Open(x: Setting, time: Time, lease: nat) {
    x.since <= time < x.since + Ttl(lease) && (x.count > 0 ==> time < x.expires)
  }

  function Taken(x: Setting, id: SlotId, limit: nat, time: Time, lease: nat): Setting {
    var expires := if x.count == 0 then time + Ttl(lease) else x.expires;
    if x.count < limit then x.(count := x.count + 1, expires := expires, g := x.g + {id})
    else x.(count := x.count + 1, expires := expires, r := x.r + {id})
  }

  lemma TakenCounts(x: Setting, id: SlotId, limit: nat, time: Time, lease: nat)
    requires id !in x.g + x.r
    ensures var y := Taken(x, id, limit, time, lease);
            && y.count == x.count + 1 && y.since == x.since && y.late == x.late
            && y.expires == (if x.count == 0 then time + Ttl(lease) else x.expires)
            && (if x.count < limit then |y.g| == |x.g| + 1 && y.r == x.r else |y.r| == |x.r| + 1 && y.g == x.g)
  {
  }

  lemma TakeStep(s: State, key: string, limit: nat, lease: nat, time: Time, x: Setting)
    requires Has(s, key, x) && Open(x, time, lease) && (x.count >= limit ==> time >= x.late)
    ensures var at := At(time, Take(key, limit, lease, time));
            && Punctual(s, at, lease) && s.nextSlot !in x.g + x.r
            && Has(Apply(s, at.op), key, Taken(x, s.nextSlot, limit, time, lease))
  {
    var s' := Apply(s, Take(key, limit, lease, time));
    assert s'.store == map[key := Counter(x.count + 1, Some(if x.count == 0 then time + Ttl(lease) else x.expires))];
    assert s'.slots.Keys == s.slots.Keys + {s.nextSlot};
  }

  lemma GiveBackStep(s: State, id: SlotId, key: string, lease: nat, time: Time, x: Setting)
    requires Has(s, key, x) && Open(x, time, lease) && id in x.g + x.r && x.count > 0
    ensures var at := At(time, GiveBack(id));
            Punctual(s, at, lease) && Has(Apply(s, at.op), key, x.(count := x.count - 1, g := x.g - {id}, r := x.r - {id}))
  {
  }

  lemma ExpireStep(s: State, key: string, lease: nat, x: Setting)
    requires Has(s, key, x) && x.count > 0 && x.expires < x.since + Ttl(lease)
    ensures var at := At(x.expires, Expire(key));
            Punctual(s, at, lease) && Has(Apply(s, at.op), key, x.(count := 0))
  {
  }

  lemma Disjoint(s: State, key: string, x: Setting)
    requires Has(s, key, x)
    ensures x.g !! x.r
    ensures x.g == {} ==> Has(s, key, x.(since := x.late))
    ensures x.r == {} ==> forall time: Time :: time >= x.since ==> Has(s, key, x.(late := time))
  {
  }

  /** `n` takes at one moment, all granted or all refused. */
  lemma {:induction false} Takes(s: State, key: string, limit: nat, lease: nat, time: Time, n: nat, x: Setting)
    returns (run: seq<Timed>, s': State, x': Setting)
    requires Has(s, key, x) && Open(x, time, lease)
    requires x.count + n <= limit || (x.count >= limit && x.count > 0 && time >= x.late)
    ensures Goes(s, run, s', key, limit, lease, time, time) && Has(s', key, x')
    ensures x'.count == x.count + n && x'.since == x.since && x'.late == x.late
    ensures x'.expires == if x.count == 0 && n > 0 then time + Ttl(lease) else x.expires
    ensures if x.count < limit then |x'.g| == |x.g| + n && x'.r == x.r else |x'.r| == |x.r| + n && x'.g == x.g
    ensures n == 0 ==> x' == x
    decreases n
  {
    hide Has, Punctual, Apply, Goes, Taken;
    if n == 0 {
      Stay(s, key, limit, lease, time, time);
      return [], s, x;
    }
    var at := At(time, Take(key, limit, lease, time));
    TakeStep(s, key, limit, lease, time, x);
    TakenCounts(x, s.nextSlot, limit, time, lease);
    run, s', x' := Takes(Apply(s, at.op), key, limit, lease, time, n - 1, Taken(x, s.nextSlot, limit, time, lease));
    OneMore(s, at, run, s', key, limit, lease, time);
    run := [at] + run;
  }

  /** The granted slots are given back at one moment, while refused ones keep the counter. */
  lemma {:induction false} GiveBackGranted(s: State, key: string, limit: nat, lease: nat, time: Time, x: Setting)
    returns (run: seq<Timed>, s': State)
    requires Has(s, key, x) && Open(x, time, lease) && x.count > |x.g|
    ensures Goes(s, run, s', key, limit, lease, time, time)
    ensures Has(s', key, x.(count := x.count - |x.g|, g := {}))
    decreases |x.g|
  {
    hide Has, Punctual, Apply, Goes;
    if x.g == {} {
      Stay(s, key, limit, lease, time, time);
      return [], s;
    }
    var id :| id in x.g;
    Disjoint(s, key, x);
    var at := At(time, GiveBack(id));
    GiveBackStep(s, id, key, lease, time, x);
    assert x.r - {id} == x.r;
    var y := x.(count := x.count - 1, g := x.g - {id});
    run, s' := GiveBackGranted(Apply(s, at.op), key, limit, lease, time, y);
    assert y.(count := y.count - |y.g|, g := {}) == x.(count := x.count - |x.g|, g := {});
    OneMore(s, at, run, s', key, limit, lease, time);
    run := [at] + run;
  }

  /** A refused slot of an earlier counter, given back, lets one more be granted. */
  lemma ReplaceOne(s: State, key: string, limit: nat, lease: nat, time: Time, x: Setting, id: SlotId)
    returns (run: seq<Timed>, s': State, x': Setting)
    requires limit >= 1 && Has(s, key, x) && Open(x, time, lease) && x.count == limit && id in x.r
    ensures Goes(s, run, s', key, limit, lease, time, time) && Has(s', key, x')
    ensures x'.count == limit && Open(x', time, lease) && |x'.g| == |x.g| + 1 && x'.r == x.r - {id}
  {
    hide Has, Punctual, Apply, Goes;
    Disjoint(s, key, x);
    var back, take := At(time, GiveBack(id)), At(time, Take(key, limit, lease, time));
    GiveBackStep(s, id, key, lease, time, x);
    assert x.g - {id} == x.g;
    var mid, y := Apply(s, back.op), x.(count := limit - 1, r := x.r - {id});
    TakeStep(mid, key, limit, lease, time, y);
    s', x' := Apply(mid, take.op), Taken(y, mid.nextSlot, limit, time, lease);
    Stay(s', key, limit, lease, time, time);
    OneMore(mid, take, [], s', key, limit, lease, time);
    OneMore(s, back, [take] + [], s', key, limit, lease, time);
    run := [back] + ([take] + []);
  }

  lemma {:induction false} Replace(s: State, key: string, limit: nat, lease: nat, time: Time, x: Setting)
    returns (run: seq<Timed>, s': State, x': Setting)
    requires limit >= 1 && Has(s, key, x) && Open(x, time, lease) && x.count == limit
    ensures Goes(s, run, s', key, limit, lease, time, time) && Has(s', key, x')
    ensures |x'.g| == |x.g| + |x.r| && x'.r == {}
    decreases |x.r|
  {
    hide Has, Punctual, Apply, Goes, Open;
    if x.r == {} {
      Stay(s, key, limit, lease, time, time);
      return [], s, x;
    }
    var id :| id in x.r;
    var one, mid, y := ReplaceOne(s, key, limit, lease, time, x, id);
    run, s', x' := Replace(mid, key, limit, lease, time, y);
    Join(s, one, mid, run, s', key, limit, lease, time, time, time);
    run := one + run;
  }

  lemma EmptySetting(key: string)
    ensures Has(EMPTY, key, Setting(0, 0, {}, {}, 0, 0))
  {
  }

  lemma AllGranted(s: State, key: string, x: Setting)
    requires Has(s, key, x)
    ensures Granted(s, key) == x.g
  {
  }

  /** A full limit at the start of a lease, and `extra` refused requests at its end. */
  lemma FillUp(key: string, limit: nat, lease: nat, extra: nat) returns (run: seq<Timed>, s: State, x: Setting)
    requires limit >= 1 && extra >= 1 && Ttl(lease) >= 2
    ensures var late := Ttl(lease) - 1;
            && Goes(EMPTY, run, s, key, limit, lease, 0, late) && Has(s, key, x)
            && x.count == limit + extra && |x.g| == limit && |x.r| == extra
            && x.since == 0 && x.late == late && x.expires == late + 1
  {
    hide Has, Punctual, Apply, Goes;
    var late := Ttl(lease) - 1;
    EmptySetting(key);
    var run1, s1, x1 := Takes(EMPTY, key, limit, lease, 0, limit, Setting(0, 0, {}, {}, 0, 0));
    Disjoint(s1, key, x1);
    Stay(s1, key, limit, lease, 0, late);
    Join(EMPTY, run1, s1, [], s1, key, limit, lease, 0, 0, late);
    var run2;
    run2, s, x := Takes(s1, key, limit, lease, late, extra, x1.(late := late));
    Join(EMPTY, run1 + [], s1, run2, s, key, limit, lease, 0, late, late);
    run := run1 + [] + run2;
  }

  /** The granted slots come back in time, and the counter expires under the refused ones. */
  lemma LoseRefused(s: State, key: string, limit: nat, lease: nat, x: Setting) returns (run: seq<Timed>, s': State, x': Setting)
    requires Has(s, key, x) && x.since == 0 && x.late == Ttl(lease) - 1 >= 1 && x.expires == Ttl(lease) && x.count > |x.g|
    ensures Goes(s, run, s', key, limit, lease, x.late, x.expires) && Has(s', key, x')
    ensures x'.count == 0 && x'.g == {} && x'.r == x.r && x'.since == x'.late == x.late
  {
    hide Has, Punctual, Apply, Goes;
    var run1, s1 := GiveBackGranted(s, key, limit, lease, x.late, x);
    var x1 := x.(count := x.count - |x.g|, g := {});
    Disjoint(s1, key, x1);
    var x2 := x1.(since := x1.late);
    ExpireStep(s1, key, lease, x2);
    var at := At(x.expires, Expire(key));
    s', x' := Apply(s1, at.op), x2.(count := 0);
    Stay(s', key, limit, lease, x.expires, x.expires);
    OneMore(s1, at, [], s', key, limit, lease, x.expires);
    Stay(s1, key, limit, lease, x.late, x.expires);
    Join(s, run1, s1, [], s1, key, limit, lease, x.late, x.late, x.expires);
    Join(s, run1 + [], s1, [at] + [], s', key, limit, lease, x.late, x.expires, x.expires);
    run := run1 + [] + ([at] + []);
  }

  /** However short the requests: with every slot held for less than a lease, no bound at all holds
      for the granted slots, whatever the limit and the lease. */
  lemma ShortRequestsDoNotHelp(key: string, limit: nat, lease: nat, extra: nat) returns (run: seq<Timed>)
    requires limit >= 1 && extra >= 1 && Ttl(lease) >= 2
    ensures InTime(EMPTY, run, lease, 0) && SameLimit(run, key, limit)
    ensures |Granted(Last(EMPTY, run, lease, 0), key)| == limit + extra
  {
    var s;
    run, s := ManyGranted(key, limit, lease, extra);
  }

  lemma ManyGranted(key: string, limit: nat, lease: nat, extra: nat) returns (run: seq<Timed>, s: State)
    requires limit >= 1 && extra >= 1 && Ttl(lease) >= 2
    ensures Goes(EMPTY, run, s, key, limit, lease, 0, Ttl(lease)) && |Granted(s, key)| == limit + extra
  {
    hide Has, Punctual, Apply, Goes, Granted;
    var end := Ttl(lease);
    var run1, s1, x1 := FillUp(key, limit, lease, extra);
    var run2, s2, x2 := LoseRefused(s1, key, limit, lease, x1);
    Join(EMPTY, run1, s1, run2, s2, key, limit, lease, 0, end - 1, end);
    var run3, s3, x3 := Takes(s2, key, limit, lease, end, limit, x2);
    Join(EMPTY, run1 + run2, s2, run3, s3, key, limit, lease, 0, end, end);
    var run4, s4, x4 := Replace(s3, key, limit, lease, end, x3);
    Join(EMPTY, run1 + run2 + run3, s3, run4, s4, key, limit, lease, 0, end, end);
    AllGranted(s4, key, x4);
    run, s := run1 + run2 + run3 + run4, s4;
  }

  // ----- A lease of one unit of the store's clock -----

  /** Every slot of the key was taken before the expiry of the counter, which is there. */
  predicate Dated(s: State, key: string) {
    forall id :: id in s.slots && s.slots[id].key == key ==>
      key in s.store && s.store[key].expiresAt.Some? && s.slots[id].takenAt < s.store[key].expiresAt.value
  }

  predicate Safe(s: State, key: string, limit: nat) {
    Bounded(s, key) && Exact(s, key, limit) && Dated(s, key)
  }

  /** The counter cannot expire: no slot under it is held until then. */
  lemma UnitLeaseIsHarmless(s: State, at: Timed, lease: nat, key: string, limit: nat)
    requires Safe(s, key, limit) && Ttl(lease) == 1 && Punctual(s, at, lease)
    ensures Enabled(s, at.op) && Harmless(s, at.op, key)
  {
    if key in s.store {
      var id := SomeSlot(s, key);
      assert at.time <= s.slots[id].takenAt;
    }
  }

  lemma SomeSlot(s: State, key: string) returns (id: SlotId)
    requires Bounded(s, key) && key in s.store
    ensures id in s.slots && s.slots[id].key == key
  {
    id :| id in SlotsOf(s, key);
  }

  lemma StaysDated(s: State, at: Timed, lease: nat, key: string, limit: nat)
    requires Safe(s, key, limit) && Punctual(s, at, lease) && Harmless(s, at.op, key)
    ensures Dated(Apply(s, at.op), key)
  {
    hide Granted;
    var s' := Apply(s, at.op);
    if at.op.GiveBack? && s.slots[at.op.slot].key == key && key !in s'.store {
      SlotIsOf(s, at.op.slot, key);
      assert |SlotsOf(s, key)| <= 1;
      forall id | id in s'.slots && s'.slots[id].key == key ensures false {
        SlotIsOf(s, id, key);
        assert {id, at.op.slot} <= SlotsOf(s, key);
        Cardinalities({id, at.op.slot}, SlotsOf(s, key), id);
      }
    }
  }

  lemma {:induction false} UnitLeaseIsSafe(s: State, run: seq<Timed>, lease: nat, from: Time, key: string, limit: nat)
    requires Safe(s, key, limit) && Ttl(lease) == 1 && InTime(s, run, lease, from) && SameLimit(run, key, limit)
    ensures Safe(Last(s, run, lease, from), key, limit)
    decreases |run|
  {
    hide Bounded, Exact, Dated, Apply, Punctual, Harmless;
    if run != [] {
      var at := run[0];
      UnitLeaseIsHarmless(s, at, lease, key, limit);
      StaysDated(s, at, lease, key, limit);
      StepKeepsBounded(s, at.op, key);
      StepKeepsExact(s, at.op, key, limit);
      UnitLeaseIsSafe(Apply(s, at.op), run[1..], lease, at.time, key, limit);
    }
  }

  /** Whatever clients do in time, no more slots are granted than the limit. */
  ghost predicate LimitHolds(key: string, limit: nat, lease: nat) {
    forall run :: InTime(EMPTY, run, lease, 0) && SameLimit(run, key, limit) ==>
      |Granted(Last(EMPTY, run, lease, 0), key)| <= limit
  }

  /** With every slot held for less than a lease, the limit holds if and only if the lease is one
      unit of the store's clock. */
  lemma LimitHoldsExactly(key: string, limit: nat, lease: nat)
    requires limit >= 1
    ensures LimitHolds(key, limit, lease) <==> Ttl(lease) == 1
  {
    hide InTime, Last, Granted, SameLimit;
    if Ttl(lease) == 1 {
      forall run | InTime(EMPTY, run, lease, 0) && SameLimit(run, key, limit)
        ensures |Granted(Last(EMPTY, run, lease, 0), key)| <= limit
      {
        NothingTaken(key, limit);
        UnitLeaseIsSafe(EMPTY, run, lease, 0, key, limit);
      }
    } else {
      var run := ShortRequestsDoNotHelp(key, limit, lease, 1);
    }
  }

  lemma NothingTaken(key: string, limit: nat)
    ensures Safe(EMPTY, key, limit)
  {
  }
}
