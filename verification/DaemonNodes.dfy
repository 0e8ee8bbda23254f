/** Requests of daemon nodes: the freshness check and the nonce cache with its lazy pruning, and
    the cutoff that makes a node eligible. */
module DaemonNodes {
  import opened Core
  import opened Decimal
  import opened Text

  const SIGNATURE_TTL_SECONDS: I64 := 300
  const PRUNE_THRESHOLD := 256

  /** The text of a UUID. */
  type NodeId = id: string | |id| == 36 witness seq(36, i => '0')

  type NonceCache = map<string, I64>

  /** A request as the check sees it: `timestamp` is none when its header is not a number, and
      `verified` tells whether the signature over all of it matches. */
  datatype Request = Request(node: NodeId, path: string, nonce: string, timestamp: Option<I64>, bodyHash: string, verified: bool)

  function CheckedSub(a: I64, b: I64): Option<I64> {
    if I64_MIN <= a - b <= I64_MAX then Some(a - b) else None
  }

  function CheckedAbs(a: I64): Option<I64> {
    if a == I64_MIN then None else Some(if a < 0 then -a else a)
  }

  function CheckedAdd(a: I64, b: I64): Option<I64> {
    if I64_MIN <= a + b <= I64_MAX then Some(a + b) else None
  }

  predicate EndsWith(text: string, suffix: string) {
    |suffix| <= |text| && text[|text| - |suffix|..] == suffix
  }

  predicate RequiresBodySignature(path: string) {
    path == "/daemon/register" || path == "/daemon/heartbeat" || ("/daemon/jobs/" <= path && EndsWith(path, "/complete"))
  }

  function KeyOf(request: Request): string {
    request.node + "::" + request.nonce
  }

  lemma KeysAreDistinct(a: Request, b: Request)
    ensures KeyOf(a) == KeyOf(b) <==> a.node == b.node && a.nonce == b.nonce
  {
    assert KeyOf(a)[..36] == a.node && KeyOf(a)[38..] == a.nonce;
    assert KeyOf(b)[..36] == b.node && KeyOf(b)[38..] == b.nonce;
  }

  /** The age of the timestamp passes, with the overflow checks in place. */
  predicate Fresh(timestamp: I64, now: I64) {
    var delta := CheckedSub(now, timestamp);
    && delta.Some?
    && CheckedAbs(delta.value).Some?
    && CheckedAbs(delta.value).value <= SIGNATURE_TTL_SECONDS
    && CheckedAdd(timestamp, SIGNATURE_TTL_SECONDS).Some?
  }

  /** The overflow checks refuse nothing within the age limit, but for the end of time. */
  lemma FreshMeans(timestamp: I64, now: I64)
    ensures Fresh(timestamp, now) <==>
            -SIGNATURE_TTL_SECONDS <= now - timestamp <= SIGNATURE_TTL_SECONDS && timestamp <= I64_MAX - SIGNATURE_TTL_SECONDS
  {
  }

  /** The checks before the cache is locked. */
  predicate Passes(request: Request, now: I64) {
    && (RequiresBodySignature(request.path) ==> Trim(request.bodyHash) != "")
    && request.timestamp.Some? && Fresh(request.timestamp.value, now) && request.verified
  }

  function Pruned(nonces: NonceCache, now: I64): NonceCache {
    map key | key in nonces && now <= nonces[key] :: nonces[key]
  }

  /** The cache once its lock is held: pruned when it is large. */
  function Locked(nonces: NonceCache, now: I64): NonceCache {
    if |nonces| >= PRUNE_THRESHOLD then Pruned(nonces, now) else nonces
  }

  predicate Accepts(nonces: NonceCache, request: Request, now: I64) {
    Passes(request, now) && KeyOf(request) !in Locked(nonces, now)
  }

  function NextCache(nonces: NonceCache, request: Request, now: I64): NonceCache {
    if !Passes(request, now) then nonces
    else if KeyOf(request) in Locked(nonces, now) then Locked(nonces, now)
    else Locked(nonces, now)[KeyOf(request) := request.timestamp.value + SIGNATURE_TTL_SECONDS]
  }

  class SignatureGate {
    var nonces: NonceCache

    constructor ()
      ensures nonces == map[]
    {
      nonces := map[];
    }

    method PruneStaleNonces(now: I64)
      modifies this
      ensures nonces == Pruned(old(nonces), now)
    {
      nonces := map key | key in nonces && now <= nonces[key] :: nonces[key];
    }

    method ValidateDaemonRequestSignature(request: Request, now: I64) returns (r: AppResult<()>)
      modifies this
      ensures r.Success? <==> Accepts(old(nonces), request, now)
      ensures nonces == NextCache(old(nonces), request, now)
      // In full: accepted are the requests with a signature that matches, a timestamp within 300
      // seconds of the clock and not in the last 300 of time, a body hash where the path asks for
      // one, and a nonce that this node has not in the cache, or only expired in a cache of 256.
      ensures r.Success? <==>
                && request.verified
                && request.timestamp.Some? && -300 <= now - request.timestamp.value <= 300
                && request.timestamp.value <= 0x7FFF_FFFF_FFFF_FFFF - 300
                && (request.path == "/daemon/register" || request.path == "/daemon/heartbeat"
                    || ("/daemon/jobs/" <= request.path && |request.path| >= 9 && request.path[|request.path| - 9..] == "/complete")
                    ==> !IsBlank(request.bodyHash))
                && !(var key := request.node + "::" + request.nonce;
                     key in old(nonces) && (|old(nonces)| < 256 || now <= old(nonces)[key]))
      ensures r.Success? ==>
                forall key :: key in nonces <==>
                  key == request.node + "::" + request.nonce || (key in old(nonces) && (|old(nonces)| < 256 || now <= old(nonces)[key]))
      ensures r.Success? ==> nonces[request.node + "::" + request.nonce] == request.timestamp.value + 300
      ensures forall key :: key in nonces && (r.Failure? || key != request.node + "::" + request.nonce) ==>
                key in old(nonces) && nonces[key] == old(nonces)[key]
      ensures r.Failure? ==>
                || nonces == old(nonces)
                || (|old(nonces)| >= 256 && forall key :: key in old(nonces) && now <= old(nonces)[key] ==> key in nonces)
      ensures r.Failure? ==>
                r.error ==
                if request.timestamp.None?
                   && (request.path == "/daemon/register" || request.path == "/daemon/heartbeat"
                       || ("/daemon/jobs/" <= request.path && |request.path| >= 9 && request.path[|request.path| - 9..] == "/complete")
                       ==> !IsBlank(request.bodyHash))
                then InvalidConfig("x-mizan-daemon-timestamp")
                else Unauthorized
    {
      TrimEmpty(request.bodyHash);
      hide Trim;
      if RequiresBodySignature(request.path) && Trim(request.bodyHash) == "" {
        return Failure(Unauthorized);
      }
      if request.timestamp.None? {
        return Failure(InvalidConfig("x-mizan-daemon-timestamp"));
      }
      var timestamp := request.timestamp.value;
      var delta := CheckedSub(now, timestamp);
      if delta.None? || CheckedAbs(delta.value).None? {
        return Failure(Unauthorized);
      }
      if CheckedAbs(delta.value).value > SIGNATURE_TTL_SECONDS {
        return Failure(Unauthorized);
      }
      var nonceExpiry := CheckedAdd(timestamp, SIGNATURE_TTL_SECONDS);
      if nonceExpiry.None? {
        return Failure(Unauthorized);
      }
      if !request.verified {
        return Failure(Unauthorized);
      }
      if |nonces| >= PRUNE_THRESHOLD {
        PruneStaleNonces(now);
      }
      var nonceKey := request.node + "::" + request.nonce;
      if nonceKey in nonces {
        return Failure(Unauthorized);
      }
      nonces := nonces[nonceKey := nonceExpiry.value];
      return Success(());
    }
  }

  // ----- Runs -----

  /** One request at the gate, with the clock reading it is checked and cached with. */
  datatype Visit = Visit(request: Request, now: I64)

  function CacheAfter(visits: seq<Visit>): NonceCache {
    if visits == [] then map[]
    else NextCache(CacheAfter(visits[..|visits| - 1]), visits[|visits| - 1].request, visits[|visits| - 1].now)
  }

  predicate Accepted(visits: seq<Visit>, i: nat)
    requires i < |visits|
  {
    Accepts(CacheAfter(visits[..i]), visits[i].request, visits[i].now)
  }

  predicate ClockNeverGoesBack(visits: seq<Visit>) {
    forall i, j :: 0 <= i < j < |visits| ==> visits[i].now <= visits[j].now
  }

  /** The m-th request prunes what expired before `expiry` passed: it reaches a large cache with a
      later clock reading. */
  predicate PrunesAway(visits: seq<Visit>, m: nat, expiry: int)
    requires m < |visits|
  {
    && Passes(visits[m].request, visits[m].now)
    && |CacheAfter(visits[..m])| >= PRUNE_THRESHOLD
    && visits[m].now > expiry
  }

  /** Some request between the i-th and the j-th does. */
  ghost predicate PrunedBetween(visits: seq<Visit>, i: nat, j: nat, expiry: int)
    requires j <= |visits|
  {
    exists m :: i < m < j && PrunesAway(visits, m, expiry)
  }

  predicate AcceptedWithKey(visits: seq<Visit>, i: nat, key: string)
    requires i < |visits|
  {
    Accepted(visits, i) && KeyOf(visits[i].request) == key
  }

  lemma AcceptedHasTime(cache: NonceCache, visit: Visit)
    requires Accepts(cache, visit.request, visit.now)
    ensures visit.request.timestamp.Some? && visit.now <= visit.request.timestamp.value + SIGNATURE_TTL_SECONDS
    ensures var next := NextCache(cache, visit.request, visit.now);
            && KeyOf(visit.request) in next
            && next[KeyOf(visit.request)] == visit.request.timestamp.value + SIGNATURE_TTL_SECONDS
  {
    hide KeyOf, Trim;
  }

  /** What one request does to the entry of a key it is not accepted with. */
  lemma EntryStep(cache: NonceCache, visit: Visit, key: string)
    requires Accepts(cache, visit.request, visit.now) ==> KeyOf(visit.request) != key
    ensures var next := NextCache(cache, visit.request, visit.now);
            && (key in next ==> key in cache && next[key] == cache[key])
            && (key in cache ==>
                  (key !in next <==>
                   Passes(visit.request, visit.now) && |cache| >= PRUNE_THRESHOLD && visit.now > cache[key]))
  {
    hide Passes, KeyOf;
  }

  /** The entry of an accepted request stays until it is pruned away. */
  lemma {:induction false} EntryStays(visits: seq<Visit>, i: nat, k: nat, key: string, expiry: int)
    requires i < k <= |visits| && AcceptedWithKey(visits, i, key)
    requires visits[i].request.timestamp.Some? && expiry == visits[i].request.timestamp.value + SIGNATURE_TTL_SECONDS
    requires forall m :: i < m < k ==> !AcceptedWithKey(visits, m, key)
    ensures var cache := CacheAfter(visits[..k]);
            && (key in cache ==> cache[key] == expiry)
            && (key !in cache <==> PrunedBetween(visits, i, k, expiry))
  {
    hide Passes, KeyOf, NextCache;
    var init, last := visits[..k - 1], visits[k - 1];
    assert visits[..k][..k - 1] == init && visits[..k][k - 1] == last;
    if i == k - 1 {
      AcceptedHasTime(CacheAfter(visits[..i]), visits[i]);
    } else {
      EntryStays(visits, i, k - 1, key, expiry);
      assert !AcceptedWithKey(visits, k - 1, key);
      EntryStep(CacheAfter(init), last, key);
      assert key in CacheAfter(init) && key !in CacheAfter(visits[..k]) ==> PrunesAway(visits, k - 1, expiry);
    }
  }

  /** Over every run of any nodes, with any clock readings in any order: the next request of a node
      with a nonce it was accepted with is accepted again if and only if it passes the checks and
      some request since, itself included, pruned the nonce away. With the same timestamp the
      request cannot do so itself. */
  lemma AcceptedAgainExactly(visits: seq<Visit>, i: nat, j: nat)
    requires i < j < |visits| && Accepted(visits, i) && Passes(visits[j].request, visits[j].now)
    requires visits[j].request.node == visits[i].request.node && visits[j].request.nonce == visits[i].request.nonce
    requires forall m :: i < m < j ==> !AcceptedWithKey(visits, m, KeyOf(visits[i].request))
    ensures visits[i].request.timestamp.Some?
    ensures var expiry := visits[i].request.timestamp.value + SIGNATURE_TTL_SECONDS;
            && (Accepted(visits, j) <==> PrunedBetween(visits, i, j + 1, expiry))
            && (visits[j].request.timestamp == visits[i].request.timestamp ==>
                  (Accepted(visits, j) <==> PrunedBetween(visits, i, j, expiry)))
  {
    hide Passes, KeyOf, NextCache, CacheAfter;
    var key := KeyOf(visits[i].request);
    AcceptedHasTime(CacheAfter(visits[..i]), visits[i]);
    var expiry := visits[i].request.timestamp.value + SIGNATURE_TTL_SECONDS;
    KeysAreDistinct(visits[i].request, visits[j].request);
    EntryStays(visits, i, j, key, expiry);
    PassesInTime(visits[j]);
    assert PrunedBetween(visits, i, j + 1, expiry) <==> PrunedBetween(visits, i, j, expiry) || PrunesAway(visits, j, expiry);
  }

  lemma PassesInTime(visit: Visit)
    requires Passes(visit.request, visit.now)
    ensures visit.request.timestamp.Some? && visit.now <= visit.request.timestamp.value + SIGNATURE_TTL_SECONDS
  {
    hide Trim;
  }

  /** The first request after the i-th that is accepted with its key. */
  lemma NextAcceptance(visits: seq<Visit>, i: nat, j: nat, key: string) returns (k: nat)
    requires i < j < |visits| && AcceptedWithKey(visits, j, key)
    ensures i < k <= j && AcceptedWithKey(visits, k, key)
    ensures forall m :: i < m < k ==> !AcceptedWithKey(visits, m, key)
  {
    if m :| i < m < j && AcceptedWithKey(visits, m, key) {
      k := NextAcceptance(visits, i, m, key);
    } else {
      k := j;
    }
  }

  /** Single acceptance: in every run of any nodes, with prunes at any moments and a clock that
      never goes back, a signed (node, nonce, timestamp) is accepted at most once. */
  lemma AcceptedOnce(visits: seq<Visit>, i: nat, j: nat)
    requires ClockNeverGoesBack(visits) && i < j < |visits| && Accepted(visits, i)
    requires visits[j].request.node == visits[i].request.node && visits[j].request.nonce == visits[i].request.nonce
    requires visits[j].request.timestamp == visits[i].request.timestamp
    ensures !Accepted(visits, j)
  {
    hide Passes, KeyOf, CacheAfter;
    if Accepted(visits, j) {
      KeysAreDistinct(visits[i].request, visits[j].request);
      var k := NextAcceptance(visits, i, j, KeyOf(visits[i].request));
      KeysAreDistinct(visits[i].request, visits[k].request);
      AcceptedAgainExactly(visits, i, k);
      PassesInTime(visits[j]);
    }
  }

  lemma {:induction false} CachedWasAccepted(visits: seq<Visit>, key: string)
    requires key in CacheAfter(visits)
    ensures exists i :: 0 <= i < |visits| && Accepted(visits, i) && KeyOf(visits[i].request) == key
  {
    hide Passes, KeyOf;
    var k := |visits| - 1;
    var init := visits[..k];
    if key in CacheAfter(init) {
      CachedWasAccepted(init, key);
      var i :| 0 <= i < |init| && Accepted(init, i) && KeyOf(init[i].request) == key;
      assert init[..i] == visits[..i];
      assert Accepted(visits, i);
    } else {
      assert Accepted(visits, k);
    }
  }

  /** Nothing else is refused for its nonce: a request that passes the checks is accepted when
      no accepted one of its node had the same nonce. */
  lemma FirstUseIsAccepted(visits: seq<Visit>, j: nat)
    requires j < |visits| && Passes(visits[j].request, visits[j].now)
    requires forall i :: 0 <= i < j && Accepted(visits, i) ==> KeyOf(visits[i].request) != KeyOf(visits[j].request)
    ensures Accepted(visits, j)
  {
    hide Passes, KeyOf, NextCache, CacheAfter;
    assert forall i :: 0 <= i < j ==> visits[..j][..i] == visits[..i];
    if KeyOf(visits[j].request) in CacheAfter(visits[..j]) {
      CachedWasAccepted(visits[..j], KeyOf(visits[j].request));
    }
  }

  // ----- A run in which the clock readings overtake each other -----

  const NODE: NodeId := "000000000000000000000000000000000000"

  /** Different requests of one node at time 300, the first of them as old as can be. */
  function Nth(n: nat): Request {
    Request(NODE, "/daemon/jobs", Render(n), Some(if n == 0 then 0 else 300), "", true)
  }

  function Crowd(n: nat): seq<Visit> {
    seq(n, i requires 0 <= i < n => Visit(Nth(i), 300))
  }

  /** The 257-th request reads the clock one second later and is the first to prune; the first
      request comes back with the earlier reading. */
  function Overtaking(): seq<Visit> {
    Crowd(PRUNE_THRESHOLD) + [Visit(Nth(PRUNE_THRESHOLD), 301), Visit(Nth(0), 300)]
  }

  lemma NthDiffers(a: nat, b: nat)
    ensures KeyOf(Nth(a)) == KeyOf(Nth(b)) <==> a == b
  {
    hide Render, KeyOf;
    KeysAreDistinct(Nth(a), Nth(b));
    if Render(a) == Render(b) {
      RenderOrder(a, b);
    }
  }

  lemma NthPasses(n: nat, now: I64)
    requires now == 300 || (now == 301 && n > 0)
    ensures Passes(Nth(n), now)
  {
    hide Render, Trim;
    var path := Nth(n).path;
    assert path[0..8] == "/daemon/" && path[8] == 'j' && |path| == 12;
    assert "/daemon/register"[8] == 'r' && "/daemon/heartbeat"[8] == 'h' && |"/daemon/jobs/"| == 13;
  }

  lemma {:induction false} CrowdFillsCache(n: nat)
    requires n <= PRUNE_THRESHOLD
    ensures |CacheAfter(Crowd(n))| == n
    ensures forall k: nat :: n <= k ==> KeyOf(Nth(k)) !in CacheAfter(Crowd(n))
  {
    hide KeyOf, Nth, Passes, NextCache;
    if n > 0 {
      CrowdFillsCache(n - 1);
      assert Crowd(n)[..n - 1] == Crowd(n - 1) && Crowd(n)[n - 1] == Visit(Nth(n - 1), 300);
      NthPasses(n - 1, 300);
      FirstTime(CacheAfter(Crowd(n - 1)), Visit(Nth(n - 1), 300));
      forall k: nat | n <= k ensures KeyOf(Nth(k)) !in CacheAfter(Crowd(n)) {
        NthDiffers(k, n - 1);
      }
    }
  }

  lemma FirstTime(cache: NonceCache, visit: Visit)
    requires |cache| < PRUNE_THRESHOLD && Passes(visit.request, visit.now) && KeyOf(visit.request) !in cache
    ensures var next := NextCache(cache, visit.request, visit.now);
            |next| == |cache| + 1 && next.Keys == cache.Keys + {KeyOf(visit.request)}
  {
    hide KeyOf, Trim;
  }

  /** From an empty cache: with clock readings out of order one request is accepted twice. */
  lemma EarlierReadingIsAcceptedAgain()
    ensures var visits, last := Overtaking(), PRUNE_THRESHOLD + 1;
            && |visits| == last + 1 && visits[0].request == visits[last].request
            && Accepted(visits, 0) && Accepted(visits, last)
  {
    hide KeyOf, Nth, Passes, CacheAfter, NextCache;
    var n := PRUNE_THRESHOLD;
    var visits := Overtaking();
    CrowdFillsCache(n);
    assert visits[..n] == Crowd(n) && visits[n] == Visit(Nth(n), 301) && visits[n + 1] == Visit(Nth(0), 300);
    assert visits[0] == Visit(Nth(0), 300) && visits[..0] == [];
    NothingCached();
    NthPasses(0, 300);
    NthPasses(n, 301);
    assert Accepted(visits, 0);
    forall m | 0 < m < n + 1 ensures !AcceptedWithKey(visits, m, KeyOf(Nth(0))) {
      NthDiffers(m, 0);
      assert visits[m].request == Nth(m);
    }
    FirstIsOld();
    assert PrunesAway(visits, n, 300);
    assert PrunedBetween(visits, 0, n + 1, 300);
    AcceptedAgainExactly(visits, 0, n + 1);
  }

  lemma NothingCached()
    ensures CacheAfter([]) == map[]
  {
  }

  lemma FirstIsOld()
    ensures Nth(0).timestamp == Some(0)
  {
  }

  // ----- Eligible nodes -----

  function SaturatingSub(a: I64, b: I64): I64 {
    if a - b < I64_MIN then I64_MIN else if a - b > I64_MAX then I64_MAX else a - b
  }

  function Cutoff(now: I64, staleAfterSeconds: I64): I64 {
    SaturatingSub(now, if staleAfterSeconds < 1 then 1 else staleAfterSeconds)
  }

  /** The query's test: a comparison of texts. */
  predicate SeenSince(lastSeen: nat, cutoff: I64) {
    TextLeq(RenderSigned(cutoff), Render(lastSeen))
  }

  /** What the text test means, for all times; and exactly when that is what it should mean: seen
      within the stale time, as it does for cutoffs before the epoch and for times of ten digits. */
  lemma CutoffMeansRecent(now: nat, staleAfterSeconds: I64, lastSeen: nat)
    requires now <= I64_MAX
    ensures var cutoff := Cutoff(now, staleAfterSeconds);
            var recent := now - lastSeen <= if staleAfterSeconds < 1 then 1 else staleAfterSeconds;
            && (SeenSince(lastSeen, cutoff) <==> cutoff < 0 || DecimalLeq(cutoff, lastSeen))
            && ((SeenSince(lastSeen, cutoff) <==> recent) <==> cutoff < 0 || SameOrder(cutoff, lastSeen))
            && (cutoff >= 0 && TenDigits(cutoff) && TenDigits(lastSeen) ==> (SeenSince(lastSeen, cutoff) <==> recent))
  {
    hide Render, TextLeq, DecimalLeq, SameOrder;
    var cutoff := Cutoff(now, staleAfterSeconds);
    if cutoff < 0 {
      NegativeFirst(cutoff, lastSeen);
    } else {
      TextOrderIsDecimal(cutoff, lastSeen);
      TextOrderIsNumeric(cutoff, lastSeen);
      if TenDigits(cutoff) && TenDigits(lastSeen) {
        TenDigitsInOrder(cutoff, lastSeen);
      }
    }
  }
}
