/** The metrics registry of mizan-api: counters per label set, kept in sixteen shards. */
module Metrics {
  import opened Core
  import opened Decimal
  import opened Text
  import opened Wallet
  import Utf8

  const LATENCY_BUCKETS_MS: seq<nat> := [50, 100, 250, 500, 1000, 2500, 5000]
  const METRIC_SHARDS := 16
  const FNV_OFFSET_BASIS: bv64 := 0xcbf29ce484222325
  const FNV_PRIME: bv64 := 0x00000100000001b3

  type Status = n: int | 0 <= n < 0x1_0000

  datatype Labels = Labels(route: string, provider: string, model: string, daemonNode: string, status: Status)

  datatype Observation = Observation(route: string, provider: string, model: string, daemonNode: Option<string>, status: Status,
                                     usage: TokenUsage, latencyMs: U64, price: RoutePrice)

  /** One count for each bound. */
  type Buckets = b: seq<nat> | |b| == |LATENCY_BUCKETS_MS| witness [0, 0, 0, 0, 0, 0, 0]

  datatype Histogram = Histogram(buckets: Buckets, count: nat, sumMs: nat)

  datatype MetricSet = MetricSet(requests: nat, promptTokens: nat, completionTokens: nat, totalTokens: nat, credits: nat,
                                 latency: Histogram)

  const NO_METRICS := MetricSet(0, 0, 0, 0, 0, Histogram([0, 0, 0, 0, 0, 0, 0], 0, 0))

  function NormalizeLabel(value: string): (text: string)
    ensures text != ""
  {
    if Trim(value) == "" then "unknown" else Trim(value)
  }

  function LabelsOf(o: Observation): Labels {
    Labels(NormalizeLabel(o.route), NormalizeLabel(o.provider), NormalizeLabel(o.model),
           match o.daemonNode case Some(node) => NormalizeLabel(node) case None => "none", o.status)
  }

  function CreditsOf(o: Observation): nat {
    if IsSuccessStatus(o.status) && CalculateUsageCharge(o.usage, o.price).total > 0 then CalculateUsageCharge(o.usage, o.price).total
    else 0
  }

  // ----- The unsharded reference -----

  type Observations = seq<Observation>

  function Matching(history: Observations, labels: Labels): Observations {
    if history == [] then []
    else
      var last := history[|history| - 1];
      Matching(history[..|history| - 1], labels) + if LabelsOf(last) == labels then [last] else []
  }

  function Sum(history: Observations, value: Observation -> nat): nat {
    if history == [] then 0 else Sum(history[..|history| - 1], value) + value(history[|history| - 1])
  }

  /** How many observations took at most `bound` milliseconds. */
  function Within(history: Observations, bound: nat): nat {
    if history == [] then 0
    else Within(history[..|history| - 1], bound) + if history[|history| - 1].latencyMs <= bound then 1 else 0
  }

  function PromptTokensOf(o: Observation): nat { o.usage.promptTokens }
  function CompletionTokensOf(o: Observation): nat { o.usage.completionTokens }
  function TotalTokensOf(o: Observation): nat { o.usage.totalTokens }
  function LatencyOf(o: Observation): nat { o.latencyMs }

  function BucketsOf(mine: Observations): Buckets {
    seq(|LATENCY_BUCKETS_MS|, i requires 0 <= i < |LATENCY_BUCKETS_MS| => Within(mine, LATENCY_BUCKETS_MS[i]))
  }

  /** The numbers of a label set with the observations `mine`, each by itself. */
  function Figures(mine: Observations): MetricSet {
    MetricSet(|mine|, Sum(mine, PromptTokensOf), Sum(mine, CompletionTokensOf), Sum(mine, TotalTokensOf), Sum(mine, CreditsOf),
              Histogram(BucketsOf(mine), |mine|, Sum(mine, LatencyOf)))
  }

  /** What one label set should show after `history`. */
  function Shown(history: Observations, labels: Labels): MetricSet {
    Figures(Matching(history, labels))
  }

  predicate Seen(history: Observations, labels: Labels) {
    Matching(history, labels) != []
  }

  /** The buckets are cumulative: each counts what the one before it counts, and none more than
      all observations. */
  lemma {:induction false} BucketsAreCumulative(mine: Observations, i: nat, j: nat)
    requires i <= j < |LATENCY_BUCKETS_MS|
    ensures BucketsOf(mine)[i] <= BucketsOf(mine)[j] <= |mine|
  {
    if mine != [] {
      BucketsAreCumulative(mine[..|mine| - 1], i, j);
    }
  }

  // ----- What one observation adds, field by field -----

  /** A label is its value without the white space around it, or "unknown" for blank ones. */
  ghost predicate IsLabel(value: string, shown: string) {
    if IsBlank(value) then shown == "unknown" else IsTrimmed(shown) && Padded(value, shown)
  }

  /** The label set an observation counts for. */
  ghost predicate CountsFor(o: Observation, labels: Labels) {
    && IsLabel(o.route, labels.route) && IsLabel(o.provider, labels.provider) && IsLabel(o.model, labels.model)
    && (if o.daemonNode.Some? then IsLabel(o.daemonNode.value, labels.daemonNode) else labels.daemonNode == "none")
    && o.status == labels.status
  }

  lemma LabelMeans(value: string, shown: string)
    ensures NormalizeLabel(value) == shown <==> IsLabel(value, shown)
  {
    hide Trim, Padded, IsTrimmed;
    TrimEmpty(value);
    var before, after := TrimSplits(value);
    if Trim(value) != "" {
      TrimMeans(value, Trim(value));
      if IsTrimmed(shown) {
        TrimMeans(value, shown);
      }
    }
  }

  lemma LabelsMean(o: Observation, labels: Labels)
    ensures LabelsOf(o) == labels <==> CountsFor(o, labels)
  {
    hide NormalizeLabel, IsLabel;
    LabelMeans(o.route, labels.route);
    LabelMeans(o.provider, labels.provider);
    LabelMeans(o.model, labels.model);
    if o.daemonNode.Some? {
      LabelMeans(o.daemonNode.value, labels.daemonNode);
    }
  }

  /** What a label set shows after one more observation: one request, its tokens and its latency more,
      the charge of a success, and one more in each bucket whose bound it meets; or what it showed. */
  lemma ObservationAdds(history: Observations, o: Observation, labels: Labels)
    ensures var before, after := Shown(history, labels), Shown(history + [o], labels);
            var bounds := [50, 100, 250, 500, 1000, 2500, 5000];
            if !CountsFor(o, labels) then after == before
            else
              && after.requests == before.requests + 1
              && after.promptTokens == before.promptTokens + o.usage.promptTokens
              && after.completionTokens == before.completionTokens + o.usage.completionTokens
              && after.totalTokens == before.totalTokens + o.usage.totalTokens
              && after.latency.count == before.latency.count + 1
              && after.latency.sumMs == before.latency.sumMs + o.latencyMs
              && (forall i :: 0 <= i < 7 ==>
                    after.latency.buckets[i] == before.latency.buckets[i] + if o.latencyMs <= bounds[i] then 1 else 0)
              && var p, q := (o.usage.promptTokens * o.price.input + 999_999) / 1_000_000,
                             (o.usage.completionTokens * o.price.output + 999_999) / 1_000_000;
              (o.price.input >= 0 && o.price.output >= 0 && p + q <= I64_MAX ==>
                 after.credits == before.credits + if 200 <= o.status <= 299 then p + q else 0)
    ensures Shown([], labels).requests == 0
  {
    hide LabelsOf, Figures, CountsFor, CalculateUsageCharge;
    MatchingSnoc(history, o, labels);
    LabelsMean(o, labels);
    if CountsFor(o, labels) {
      FiguresSnoc(Matching(history, labels), o);
      if o.price.input >= 0 && o.price.output >= 0 {
        ChargeInNumbers(o.usage, o.price);
      }
    } else {
      assert Matching(history, labels) + [] == Matching(history, labels);
    }
    NoFigures();
  }

  // ----- Shards -----

  /** One byte of FNV-1a: exclusive or, then a wrapping multiplication. */
  function FnvStep(hash: bv64, byte: Utf8.Byte): bv64 {
    (hash ^ (byte as bv64)) * FNV_PRIME
  }

  function Fnv(hash: bv64, bytes: seq<Utf8.Byte>): bv64 {
    if bytes == [] then hash else FnvStep(Fnv(hash, bytes[..|bytes| - 1]), bytes[|bytes| - 1])
  }

  method Fnv1a(hash: bv64, value: seq<Utf8.Byte>) returns (r: bv64)
    ensures r == Fnv(hash, value)
  {
    hide FnvStep;
    r := hash;
    for i := 0 to |value|
      invariant r == Fnv(hash, value[..i])
    {
      assert value[..i + 1][..i] == value[..i];
      r := FnvStep(r, value[i]);
    }
    assert value[..|value|] == value;
  }

  function LittleEndian(n: nat, width: nat): seq<Utf8.Byte> {
    if width == 0 then [] else [n % 256] + LittleEndian(n / 256, width - 1)
  }

  /** The bytes of a text after the eight bytes of their number. */
  function LengthPrefixed(hash: bv64, value: string): bv64 {
    var bytes := Utf8.Encode(value);
    Fnv(Fnv(hash, LittleEndian(|bytes|, 8)), bytes)
  }

  function LabelsHash(labels: Labels): bv64 {
    var route := LengthPrefixed(FNV_OFFSET_BASIS, labels.route);
    var provider := LengthPrefixed(route, labels.provider);
    var model := LengthPrefixed(provider, labels.model);
    var daemonNode := LengthPrefixed(model, labels.daemonNode);
    Fnv(daemonNode, LittleEndian(labels.status, 2))
  }

  function ShardIndex(labels: Labels): (i: nat)
    ensures i < METRIC_SHARDS
  {
    (LabelsHash(labels) as int) % METRIC_SHARDS
  }

  type Shard = map<Labels, MetricSet>

  /** One label set in the shards: in its own shard, exactly when it was observed, with what it
      should show, and in no other. */
  predicate Sharded(shards: seq<Shard>, history: Observations, labels: Labels)
    requires |shards| == METRIC_SHARDS
  {
    && (labels in shards[ShardIndex(labels)] <==> Seen(history, labels))
    && (labels in shards[ShardIndex(labels)] ==> shards[ShardIndex(labels)][labels] == Shown(history, labels))
    && (forall j :: 0 <= j < METRIC_SHARDS && labels in shards[j] ==> j == ShardIndex(labels))
  }

  /** The numbers after one more observation. */
  function Added(metrics: MetricSet, o: Observation): MetricSet {
    MetricSet(metrics.requests + 1, metrics.promptTokens + o.usage.promptTokens,
              metrics.completionTokens + o.usage.completionTokens, metrics.totalTokens + o.usage.totalTokens,
              metrics.credits + CreditsOf(o),
              Histogram(Bumped(metrics.latency.buckets, o.latencyMs), metrics.latency.count + 1, metrics.latency.sumMs + o.latencyMs))
  }

  function Bumped(buckets: Buckets, latencyMs: nat): Buckets {
    seq(|buckets|, i requires 0 <= i < |buckets| => buckets[i] + if latencyMs <= LATENCY_BUCKETS_MS[i] then 1 else 0)
  }

  lemma FiguresSnoc(mine: Observations, o: Observation)
    ensures Figures(mine + [o]) == Added(Figures(mine), o)
  {
    hide CreditsOf;
    assert (mine + [o])[..|mine|] == mine;
    assert BucketsOf(mine + [o]) == Bumped(BucketsOf(mine), o.latencyMs);
  }

  lemma NoFigures()
    ensures Figures([]) == NO_METRICS
  {
    assert BucketsOf([]) == [0, 0, 0, 0, 0, 0, 0];
  }

  lemma MatchingSnoc(history: Observations, o: Observation, labels: Labels)
    ensures Matching(history + [o], labels) == Matching(history, labels) + if LabelsOf(o) == labels then [o] else []
  {
    hide LabelsOf;
    assert (history + [o])[..|history|] == history;
  }

  /** The metrics an observation starts from. */
  function Entry(shard: Shard, labels: Labels): MetricSet {
    if labels in shard then shard[labels] else NO_METRICS
  }

  lemma ObserveKeepsSharded(shards: seq<Shard>, history: Observations, o: Observation, labels: Labels)
    requires |shards| == METRIC_SHARDS && Sharded(shards, history, labels) && Sharded(shards, history, LabelsOf(o))
    ensures var mine, i := LabelsOf(o), ShardIndex(LabelsOf(o));
            Sharded(shards[i := shards[i][mine := Added(Entry(shards[i], mine), o)]], history + [o], labels)
  {
    hide LabelsOf, ShardIndex, Matching, Figures, Added;
    MatchingSnoc(history, o, labels);
    if LabelsOf(o) == labels {
      FiguresSnoc(Matching(history, labels), o);
      NoFigures();
    } else {
      assert Matching(history + [o], labels) == Matching(history, labels);
    }
  }

  method ShardIndexOf(labels: Labels) returns (i: nat)
    ensures i == ShardIndex(labels)
  {
    hide Fnv, Utf8.Encode, LittleEndian;
    var hash := FNV_OFFSET_BASIS;
    hash := Fnv1aLenPrefixed(hash, labels.route);
    hash := Fnv1aLenPrefixed(hash, labels.provider);
    hash := Fnv1aLenPrefixed(hash, labels.model);
    hash := Fnv1aLenPrefixed(hash, labels.daemonNode);
    hash := Fnv1a(hash, LittleEndian(labels.status, 2));
    i := (hash as int) % METRIC_SHARDS;
  }

  method Fnv1aLenPrefixed(hash: bv64, value: string) returns (r: bv64)
    ensures r == LengthPrefixed(hash, value)
  {
    hide Fnv, Utf8.Encode, LittleEndian;
    var bytes := Utf8.Encode(value);
    r := Fnv1a(hash, LittleEndian(|bytes|, 8));
    r := Fnv1a(r, bytes);
  }

  /** The updates `observe_gateway` makes to the numbers of one label set, in its order. */
  method Record(entry: MetricSet, o: Observation) returns (metrics: MetricSet)
    ensures metrics == Added(entry, o)
  {
    hide CalculateUsageCharge;
    metrics := entry.(requests := entry.requests + 1);
    metrics := metrics.(promptTokens := metrics.promptTokens + o.usage.promptTokens);
    metrics := metrics.(completionTokens := metrics.completionTokens + o.usage.completionTokens);
    metrics := metrics.(totalTokens := metrics.totalTokens + o.usage.totalTokens);
    if 200 <= o.status <= 299 {
      var charge := CalculateUsageCharge(o.usage, o.price);
      metrics := metrics.(credits := metrics.credits + if charge.total > 0 then charge.total else 0);
    }
    var latency := metrics.latency.(count := metrics.latency.count + 1, sumMs := metrics.latency.sumMs + o.latencyMs);
    var buckets := latency.buckets;
    for i := 0 to |LATENCY_BUCKETS_MS|
      invariant forall j :: 0 <= j < |buckets| ==>
                  buckets[j] == latency.buckets[j] + if j < i && o.latencyMs <= LATENCY_BUCKETS_MS[j] then 1 else 0
    {
      if o.latencyMs <= LATENCY_BUCKETS_MS[i] {
        buckets := buckets[i := buckets[i] + 1];
      }
    }
    assert buckets == Bumped(latency.buckets, o.latencyMs);
    metrics := metrics.(latency := latency.(buckets := buckets));
  }

  class MetricsRegistry {
    const shards: array<Shard>
    ghost var history: Observations

    ghost predicate Valid()
      reads this, shards
    {
      shards.Length == METRIC_SHARDS && forall labels: Labels :: Sharded(shards[..], history, labels)
    }

    constructor ()
      ensures Valid() && history == [] && fresh(shards)
    {
      hide ShardIndex, Shown;
      shards := new Shard[METRIC_SHARDS](_ => map[]);
      history := [];
    }

    /** Counts one request in the shard of its labels, and nowhere else. */
    method ObserveGateway(o: Observation)
      requires Valid()
      modifies this`history, shards
      ensures Valid() && history == old(history) + [o]
    {
      hide LabelsOf, ShardIndex, Shown, Seen, Sharded, Added;
      ghost var before := shards[..];
      var labels := LabelsOf(o);
      var k := ShardIndexOf(labels);
      var metrics := Record(if labels in shards[k] then shards[k][labels] else NO_METRICS, o);
      shards[k] := shards[k][labels := metrics];
      history := history + [o];
      assert shards[..] == before[k := before[k][labels := Added(Entry(before[k], labels), o)]];
      forall other: Labels ensures Sharded(shards[..], history, other) {
        ObserveKeepsSharded(before, old(history), o, other);
      }
    }

    /** All label sets observed so far, in order, each with its own numbers. */
    method Snapshot() returns (stats: seq<Stat>)
      requires Valid()
      ensures InOrder(stats)
      ensures forall stat :: stat in stats <==> Seen(history, stat.labels) && stat.metrics == Shown(history, stat.labels)
    {
      hide LabelsLess, ShardIndex, Shown, Seen, Sorted, InOrder, Lists, Sharded;
      stats := [];
      ghost var whole: Shard := map[];
      ListsNothing();
      Homes(shards[..], history);
      for i := 0 to METRIC_SHARDS
        invariant Lists(stats, whole)
        invariant forall labels :: labels in whole <==> ShardIndex(labels) < i && labels in shards[ShardIndex(labels)]
        invariant forall labels :: labels in whole ==> whole[labels] == shards[ShardIndex(labels)][labels]
      {
        var inner := shards[i];
        assert forall labels :: labels in inner <==> ShardIndex(labels) == i && labels in shards[..][ShardIndex(labels)];
        stats := Extend(stats, inner, whole);
        whole := whole + inner;
      }
      SortedLists(stats, whole);
      stats := Sorted(stats);
    }
  }

  /** Appends the entries of one shard, in any order. */
  method Extend(stats: seq<Stat>, inner: Shard, ghost whole: Shard) returns (more: seq<Stat>)
    requires Lists(stats, whole) && whole.Keys !! inner.Keys
    ensures Lists(more, whole + inner)
  {
    hide Lists;
    more := stats;
    var rest := inner;
    ghost var have := whole;
    while rest != map[]
      invariant Lists(more, have) && have.Keys !! rest.Keys && have + rest == whole + inner
      decreases |rest|
    {
      var labels :| labels in rest;
      ListsOneMore(more, have, labels, rest[labels]);
      MoveOne(have, rest, labels);
      more := more + [Stat(labels, rest[labels])];
      have, rest := have[labels := rest[labels]], rest - {labels};
    }
    assert have + map[] == have;
  }

  lemma MoveOne(have: Shard, rest: Shard, labels: Labels)
    requires labels in rest && have.Keys !! rest.Keys
    ensures have[labels := rest[labels]] + (rest - {labels}) == have + rest
    ensures have[labels := rest[labels]].Keys !! (rest - {labels}).Keys
    ensures |rest - {labels}| < |rest|
  {
    assert rest == (rest - {labels})[labels := rest[labels]];
  }

  lemma Homes(shards: seq<Shard>, history: Observations)
    requires |shards| == METRIC_SHARDS && forall labels: Labels :: Sharded(shards, history, labels)
    ensures forall j, labels :: 0 <= j < METRIC_SHARDS && labels in shards[j] ==> j == ShardIndex(labels)
    ensures forall labels: Labels :: labels in shards[ShardIndex(labels)] <==> Seen(history, labels)
    ensures forall labels: Labels :: Seen(history, labels) ==> shards[ShardIndex(labels)][labels] == Shown(history, labels)
  {
    hide ShardIndex, Seen, Shown;
    forall j, labels | 0 <= j < METRIC_SHARDS && labels in shards[j] ensures j == ShardIndex(labels) {
      assert Sharded(shards, history, labels);
    }
    forall labels: Labels
      ensures labels in shards[ShardIndex(labels)] <==> Seen(history, labels)
      ensures Seen(history, labels) ==> shards[ShardIndex(labels)][labels] == Shown(history, labels) {
      assert Sharded(shards, history, labels);
    }
  }

  // ----- Snapshots -----

  datatype Stat = Stat(labels: Labels, metrics: MetricSet)

  predicate LabelsLess(a: Labels, b: Labels) {
    if a.route != b.route then TextLess(a.route, b.route)
    else if a.provider != b.provider then TextLess(a.provider, b.provider)
    else if a.model != b.model then TextLess(a.model, b.model)
    else if a.daemonNode != b.daemonNode then TextLess(a.daemonNode, b.daemonNode)
    else a.status < b.status
  }

  lemma LessIsTotal(a: string, b: string)
    ensures TextLess(a, b) || TextLess(b, a) || a == b
    ensures !(TextLess(a, b) && TextLess(b, a)) && !TextLess(a, a)
  {
    TextLeqTotal(a, b);
    TextLeqTotal(a, a);
  }

  lemma LabelsAreOrdered(a: Labels, b: Labels)
    ensures LabelsLess(a, b) || LabelsLess(b, a) || a == b
    ensures !(LabelsLess(a, b) && LabelsLess(b, a)) && !LabelsLess(a, a)
  {
    hide TextLess;
    LessIsTotal(a.route, b.route);
    LessIsTotal(a.provider, b.provider);
    LessIsTotal(a.model, b.model);
    LessIsTotal(a.daemonNode, b.daemonNode);
  }

  lemma LessIsTransitive(a: string, b: string, c: string)
    ensures TextLess(a, b) && TextLess(b, c) ==> TextLess(a, c) && a != c
  {
    TextLeqTotal(a, b);
    TextLeqTotal(b, c);
    if TextLess(a, b) && TextLess(b, c) && TextLeq(c, a) {
      TextLeqTransitive(c, a, b);
    }
  }

  lemma LabelsAreTransitive(a: Labels, b: Labels, c: Labels)
    requires LabelsLess(a, b) && LabelsLess(b, c)
    ensures LabelsLess(a, c)
  {
    hide TextLess;
    LessIsTransitive(a.route, b.route, c.route);
    LessIsTransitive(a.provider, b.provider, c.provider);
    LessIsTransitive(a.model, b.model, c.model);
    LessIsTransitive(a.daemonNode, b.daemonNode, c.daemonNode);
  }

  /** Strictly ascending labels. */
  predicate InOrder(stats: seq<Stat>) {
    forall i, j :: 0 <= i < j < |stats| ==> LabelsLess(stats[i].labels, stats[j].labels)
  }

  predicate Distinct(stats: seq<Stat>) {
    forall i, j :: 0 <= i < j < |stats| ==> stats[i].labels != stats[j].labels
  }

  /** `stats` are the entries of `m`, each once. */
  ghost predicate Lists(stats: seq<Stat>, m: Shard) {
    Distinct(stats) && forall stat :: stat in stats <==> stat.labels in m && m[stat.labels] == stat.metrics
  }

  lemma ListsNothing()
    ensures Lists([], map[])
  {
  }

  lemma ListsOneMore(stats: seq<Stat>, m: Shard, labels: Labels, metrics: MetricSet)
    requires Lists(stats, m) && labels !in m
    ensures Lists(stats + [Stat(labels, metrics)], m[labels := metrics])
  {
    var more := stats + [Stat(labels, metrics)];
    assert forall stat :: stat in more <==> stat in stats || stat == Stat(labels, metrics);
    assert forall i :: 0 <= i < |stats| ==> stats[i] in stats;
  }

  function Insert(stat: Stat, stats: seq<Stat>): seq<Stat> {
    if stats == [] || LabelsLess(stat.labels, stats[0].labels) then [stat] + stats else [stats[0]] + Insert(stat, stats[1..])
  }

  function Sorted(stats: seq<Stat>): seq<Stat> {
    if stats == [] then [] else Insert(stats[|stats| - 1], Sorted(stats[..|stats| - 1]))
  }

  lemma {:induction false} InsertKeepsOrder(stat: Stat, stats: seq<Stat>)
    requires InOrder(stats) && forall other :: other in stats ==> other.labels != stat.labels
    ensures InOrder(Insert(stat, stats))
    ensures forall other :: other in Insert(stat, stats) <==> other == stat || other in stats
  {
    hide LabelsLess;
    if stats == [] {
    } else if LabelsLess(stat.labels, stats[0].labels) {
      forall j | 0 <= j < |stats| ensures LabelsLess(stat.labels, stats[j].labels) {
        if j > 0 {
          LabelsAreTransitive(stat.labels, stats[0].labels, stats[j].labels);
        }
      }
    } else {
      LabelsAreOrdered(stat.labels, stats[0].labels);
      InsertKeepsOrder(stat, stats[1..]);
      var rest := Insert(stat, stats[1..]);
      assert stats == [stats[0]] + stats[1..];
      forall j | 0 <= j < |rest| ensures LabelsLess(stats[0].labels, rest[j].labels) {
        assert rest[j] in rest;
      }
    }
  }

  lemma {:induction false} SortedKeepsEntries(stats: seq<Stat>)
    requires Distinct(stats)
    ensures InOrder(Sorted(stats))
    ensures forall stat :: stat in Sorted(stats) <==> stat in stats
  {
    hide LabelsLess, InOrder, Insert;
    if stats == [] {
      NothingInOrder();
    } else {
      var init, last := stats[..|stats| - 1], stats[|stats| - 1];
      SortedKeepsEntries(init);
      assert stats == init + [last];
      InsertKeepsOrder(last, Sorted(init));
    }
  }

  lemma NothingInOrder()
    ensures InOrder([])
  {
  }

  lemma SortedLists(stats: seq<Stat>, m: Shard)
    requires Lists(stats, m)
    ensures InOrder(Sorted(stats))
    ensures forall stat :: stat in Sorted(stats) <==> stat.labels in m && m[stat.labels] == stat.metrics
  {
    hide InOrder, Sorted;
    SortedKeepsEntries(stats);
  }

  lemma HeadIsFirst(stats: seq<Stat>)
    requires InOrder(stats) && stats != []
    ensures forall stat :: stat in stats[1..] ==> LabelsLess(stats[0].labels, stat.labels)
    ensures stats[0] !in stats[1..]
  {
    hide LabelsLess;
    LabelsAreOrdered(stats[0].labels, stats[0].labels);
  }

  lemma SameEmptiness(a: seq<Stat>, b: seq<Stat>)
    requires forall stat :: stat in a <==> stat in b
    ensures a == [] <==> b == []
  {
    assert a != [] ==> a[0] in b;
    assert b != [] ==> b[0] in a;
  }

  /** Two snapshots of the same observations are the same, whatever the shards' own order. */
  lemma {:induction false} OrderIsUnique(a: seq<Stat>, b: seq<Stat>)
    requires InOrder(a) && InOrder(b) && forall stat :: stat in a <==> stat in b
    ensures a == b
  {
    hide LabelsLess;
    SameEmptiness(a, b);
    if a != [] {
      assert a[0] in b && b[0] in a;
      LabelsAreOrdered(a[0].labels, b[0].labels);
      assert a == [a[0]] + a[1..] && b == [b[0]] + b[1..];
      assert a[0] == b[0];
      HeadIsFirst(a);
      HeadIsFirst(b);
      assert forall stat :: stat in a[1..] ==> stat in a && stat != b[0];
      assert forall stat :: stat in b[1..] ==> stat in b && stat != a[0];
      OrderIsUnique(a[1..], b[1..]);
    }
  }
}
