/** The stream machine of the gateway (`build_stream_events`): it polls the decoder and turns
    its items into events, meters once and gives the limit lease back once. */
module GatewayStream {
  import opened Core
  import opened SseDecoder
  import opened Ledger
  import opened Wallet
  import opened Billing
  import Limits
  import Redaction

  datatype StreamResponse = StreamResponse(id: string, created: int, model: string, index: nat, delta: string,
                                           finishReason: Option<string>)

  datatype Event = ChunkEvent(response: StreamResponse) | ErrorEvent(error: AppError) | DoneEvent

  /** What a stream is started with. */
  datatype StreamContext = StreamContext(
    completionId: string,
    model: string,
    created: int,
    origin: Origin,
    user: UserId,
    price: RoutePrice,
    promptUsage: TokenUsage)

  type Lease = Limits.Lease

  /** One call of `record_usage`. */
  datatype Metering = Metering(usage: TokenUsage, status: nat)

  function InputOf(context: StreamContext, metering: Metering): BillingInput {
    BillingInput(context.origin.requestId, context.user, metering.usage, metering.status, context.price)
  }

  /** What the messages about an upstream failure name. */
  datatype Origin = Origin(route: string, provider: string, requestId: string) {
    function Text(): string {
      " route=" + route + " provider=" + provider + " request_id=" + requestId + ": "
    }
  }

  function NormalizeProviderError(error: AppError, origin: Origin): AppError {
    var where := origin.Text();
    match error
    case Infrastructure(message) =>
      Provider(Redaction.RedactText("upstream transport failure" + where + message))
    case Provider(message) =>
      Provider(Redaction.RedactText("upstream provider error" + where + message))
    case other => other
  }

  function MapChunk(context: StreamContext, chunk: Chunk): StreamResponse {
    StreamResponse(context.completionId, context.created, context.model, chunk.index, chunk.delta, chunk.finishReason)
  }

  /** Only transport and provider errors are changed, and both are answered with 502. */
  lemma NormalizedStatus(error: AppError, origin: Origin)
    ensures var normalized := NormalizeProviderError(error, origin);
            && (error.Infrastructure? || error.Provider? <==> normalized.Provider?) && (normalized.Provider? || normalized == error)
            && (normalized.Provider? ==> normalized.StatusCode() == 502)
  {
    hide Redaction.RedactText;
  }

  /** A transport or provider error reaches the client without any sensitive prefix. */
  lemma NormalizedErrorsAreRedacted(error: AppError, origin: Origin)
    requires error.Infrastructure? || error.Provider?
    ensures var normalized := NormalizeProviderError(error, origin);
            && normalized.Provider? && Redaction.Clean(normalized.reason)
            && normalized.reason ==
               Redaction.RedactText(
                 (if error.Infrastructure? then "upstream transport failure" else "upstream provider error") +
                 (" route=" + origin.route + " provider=" + origin.provider + " request_id=" + origin.requestId + ": ") +
                 (if error.Infrastructure? then error.message else error.reason))
  {
    hide Redaction.Redact, Redaction.Clean;
    var where := origin.Text();
    if error.Infrastructure? {
      Redaction.RedactClean("upstream transport failure" + where + error.message, Redaction.EndsSecret);
    } else {
      Redaction.RedactClean("upstream provider error" + where + error.reason, Redaction.EndsSecret);
    }
  }

  // ----- What a stream produces, as a function of everything upstream yields -----

  /** The number of chunks before the first error or the end. */
  function Chunks(upstream: seq<Item>): (n: nat)
    ensures n <= |upstream|
    ensures forall i :: 0 <= i < n ==> upstream[i].Success?
    ensures n < |upstream| ==> upstream[n].Failure?
  {
    if upstream == [] || upstream[0].Failure? then 0 else 1 + Chunks(upstream[1..])
  }

  /** The last usage reported before the first error or the end. */
  function LastUsage(upstream: seq<Item>, latest: Option<TokenUsage>): Option<TokenUsage> {
    if upstream == [] || upstream[0].Failure? then latest
    else LastUsage(upstream[1..], if upstream[0].value.usage.Some? then upstream[0].value.usage else latest)
  }

  /** The error upstream ends with, if it does. */
  function Ending(context: StreamContext, upstream: seq<Item>): Option<AppError> {
    var n := Chunks(upstream);
    if n < |upstream| then Some(NormalizeProviderError(upstream[n].error, context.origin)) else None
  }

  /** The one metering call of a stream that reaches its end. */
  function FinalMetering(context: StreamContext, upstream: seq<Item>, latest: Option<TokenUsage>): Metering {
    var ending := Ending(context, upstream);
    Metering(LastUsage(upstream, latest).GetOr(context.promptUsage),
             if ending.Some? then ending.value.StatusCode() else STATUS_OK)
  }

  /** The terminal event, given the outcome of the metering call: its error, else the upstream error,
      else done. */
  function FinalEvent(ending: Option<AppError>, outcome: AppResult<()>): Event {
    if outcome.Failure? then ErrorEvent(outcome.error)
    else if ending.Some? then ErrorEvent(ending.value)
    else DoneEvent
  }

  /** The events before the terminal one. */
  function ChunkEvents(context: StreamContext, upstream: seq<Item>): (events: seq<Event>)
    ensures |events| == Chunks(upstream)
  {
    seq(Chunks(upstream), i requires 0 <= i < Chunks(upstream) => ChunkEvent(MapChunk(context, upstream[i].value)))
  }

  lemma ChunkEventsCons(context: StreamContext, upstream: seq<Item>, latest: Option<TokenUsage>)
    requires upstream != [] && upstream[0].Success?
    ensures ChunkEvents(context, upstream) ==
            [ChunkEvent(MapChunk(context, upstream[0].value))] + ChunkEvents(context, upstream[1..])
    ensures var usage := upstream[0].value.usage;
            FinalMetering(context, upstream, latest) ==
            FinalMetering(context, upstream[1..], if usage.Some? then usage else latest)
    ensures Ending(context, upstream) == Ending(context, upstream[1..])
  {
  }

  lemma ChunkEventsEnd(context: StreamContext, upstream: seq<Item>, latest: Option<TokenUsage>)
    requires upstream == [] || upstream[0].Failure?
    ensures ChunkEvents(context, upstream) == []
    ensures var ending := if upstream == [] then None else Some(NormalizeProviderError(upstream[0].error, context.origin));
            && Ending(context, upstream) == ending
            && FinalMetering(context, upstream, latest) ==
               Metering(latest.GetOr(context.promptUsage), if ending.Some? then ending.value.StatusCode() else STATUS_OK)
  {
    hide NormalizeProviderError;
  }

  class StreamBuild {
    const context: StreamContext
    const upstream: SseStream
    const db: Database
    const redis: Limits.Redis
    var latestUsage: Option<TokenUsage>
    var emitDone: bool
    var limitLease: Option<Lease>
    /** The calls this stream has made: metering, lease releases, completion log entries. */
    var metered: seq<Metering>
    var released: seq<Lease>
    var completions: seq<nat>

    ghost predicate Valid()
      reads this, upstream, db, redis
    {
      && upstream.Valid() && db.Valid() && Limits.Positive(redis.store)
      && (emitDone ==> limitLease.Some? && metered == [] && released == [] && completions == [])
      && (!emitDone ==> limitLease.None? && |metered| == |released| == |completions| == 1)
    }

    /** The items upstream has yet to yield. */
    ghost function ToCome(): seq<Item>
      reads this, upstream
    {
      upstream.Remaining()
    }

    /** The metering call the stream will make when it ends. */
    ghost function Due(): Metering
      reads this, upstream
    {
      FinalMetering(context, upstream.Remaining(), latestUsage)
    }

    constructor (context: StreamContext, upstream: SseStream, db: Database, redis: Limits.Redis, lease: Lease)
      requires upstream.Valid() && db.Valid() && Limits.Positive(redis.store)
      ensures Valid() && this.context == context && this.upstream == upstream && this.db == db && this.redis == redis
      ensures emitDone && limitLease == Some(lease) && metered == []
      ensures ToCome() == upstream.Remaining()
      ensures Due() == FinalMetering(context, upstream.Remaining(), None)
    {
      hide Database.Valid, SseStream.Valid, Limits.Positive, FinalMetering;
      this.context := context;
      this.upstream := upstream;
      this.db, this.redis := db, redis;
      latestUsage, emitDone, limitLease := None, true, Some(lease);
      metered, released, completions := [], [], [];
    }

    /** Gives back a lease that is still held. */
    method ReleaseLimitLease()
      requires Limits.Positive(redis.store)
      modifies this`limitLease, this`released, redis`store, redis`failures
      ensures Limits.Positive(redis.store) && redis.failures >= old(redis.failures)
      ensures limitLease == None
      ensures released == if old(limitLease).Some? then old(released) + [old(limitLease).value] else old(released)
      ensures redis.failures == old(redis.failures) ==>
                redis.store == if old(limitLease).Some? then Limits.ReleasedAll(old(redis.store), old(limitLease).value.keys)
                               else old(redis.store)
    {
      hide Limits.Positive, Limits.ReleasedAll;
      if limitLease.Some? {
        var lease := limitLease.value;
        limitLease := None;
        var ignored;
        ghost var returned;
        ignored, returned := redis.Release(lease);
        released := released + [lease];
      }
    }

    method RecordUsage(metering: Metering) returns (outcome: AppResult<()>)
      requires db.Valid()
      modifies this`metered, db
      ensures db.Valid() && metered == old(metered) + [metering]
      ensures MetersOnce(old(db.View()), db.View(), InputOf(context, metering), outcome)
    {
      hide Database.Valid, MetersOnce, EventOf, ChargeOf, BalanceOf, ChargeRefused, Written;
      metered := metered + [metering];
      outcome := db.RecordUsage(InputOf(context, metering));
    }

    /** The end of the stream, after an upstream error or normally: one metering call, one
        completion entry, the lease given back, one terminal event. */
    method Finish(ending: Option<AppError>) returns (event: Event, outcome: AppResult<()>)
      requires Valid() && emitDone
      modifies this, db, redis`store, redis`failures
      ensures Valid() && !emitDone && redis.failures >= old(redis.failures)
      ensures var metering := Metering(old(latestUsage).GetOr(context.promptUsage),
                                       if ending.Some? then ending.value.StatusCode() else STATUS_OK);
              && metered == [metering] && released == [old(limitLease).value]
              && MetersOnce(old(db.View()), db.View(), InputOf(context, metering), outcome)
      ensures event == FinalEvent(ending, outcome)
      ensures redis.failures == old(redis.failures) ==>
                redis.store == Limits.ReleasedAll(old(redis.store), old(limitLease).value.keys)
    {
      hide Database.Valid, Database.View, SseStream.Valid, Limits.Positive, Limits.ReleasedAll, MetersOnce;
      emitDone := false;
      var status := if ending.Some? then ending.value.StatusCode() else STATUS_OK;
      var usage := latestUsage.GetOr(context.promptUsage);
      latestUsage := None;
      outcome := RecordUsage(Metering(usage, status));
      completions := completions + [if outcome.Failure? then outcome.error.StatusCode() else status];
      ReleaseLimitLease();
      if outcome.Failure? {
        return ErrorEvent(outcome.error), outcome;
      }
      return (if ending.Some? then ErrorEvent(ending.value) else DoneEvent), outcome;
    }

    /** One poll of the event stream; `outcome` is that of the metering call a terminal event comes with. */
    method Poll() returns (event: Option<Event>, ghost outcome: AppResult<()>)
      requires Valid()
      modifies this, upstream, db, redis`store, redis`failures
      ensures Valid() && redis.failures >= old(redis.failures)
      ensures !old(emitDone) ==> event.None? && unchanged(this) && unchanged(db) && unchanged(redis)
      ensures old(emitDone) ==> event.Some?
      ensures old(emitDone) && emitDone ==>
                && ChunkEvents(context, old(ToCome())) == [event.value] + ChunkEvents(context, ToCome())
                && metered == old(metered) && limitLease == old(limitLease) && Due() == old(Due())
                && Ending(context, old(ToCome())) == Ending(context, ToCome())
                && unchanged(db) && unchanged(redis)
      ensures old(emitDone) && !emitDone ==>
                && ChunkEvents(context, old(ToCome())) == []
                && event.value == FinalEvent(Ending(context, old(ToCome())), outcome)
                && metered == [old(Due())] && released == [old(limitLease).value]
                && MetersOnce(old(db.View()), db.View(), InputOf(context, old(Due())), outcome)
                && (redis.failures == old(redis.failures) ==>
                      redis.store == Limits.ReleasedAll(old(redis.store), old(limitLease).value.keys))
    {
      hide NormalizeProviderError, SseStream.Valid, SseStream.Remaining, ChunkEvents, FinalMetering, Ending, MapChunk,
           Database.Valid, Database.View, Limits.Positive, Limits.ReleasedAll, MetersOnce, InputOf;
      outcome := Success(());
      if !emitDone {
        return None, outcome;
      }
      ghost var items := upstream.Remaining();
      var next := upstream.Next();
      match next {
        case Some(Success(chunk)) =>
          ChunkEventsCons(context, items, latestUsage);
          if chunk.usage.Some? {
            latestUsage := chunk.usage;
          }
          return Some(ChunkEvent(MapChunk(context, chunk))), outcome;
        case Some(Failure(error)) =>
          ChunkEventsEnd(context, items, latestUsage);
          var last, recorded := Finish(Some(NormalizeProviderError(error, context.origin)));
          return Some(last), recorded;
        case None =>
          ChunkEventsEnd(context, items, latestUsage);
          var last, recorded := Finish(None);
          return Some(last), recorded;
      }
    }

    /** The destructor: gives back a lease that is still held. */
    method Drop()
      requires Valid()
      modifies this, redis`store, redis`failures
      ensures db.Valid() && Limits.Positive(redis.store)
      ensures limitLease == None && metered == old(metered)
      ensures released == if old(emitDone) then [old(limitLease).value] else old(released)
      ensures redis.failures >= old(redis.failures)
      ensures redis.failures == old(redis.failures) ==>
                redis.store == if old(emitDone) then Limits.ReleasedAll(old(redis.store), old(limitLease).value.keys)
                               else old(redis.store)
    {
      hide Database.Valid, SseStream.Valid, Limits.Positive, Limits.ReleasedAll;
      ReleaseLimitLease();
    }
  }

  /** The usage of the last of the first `n` chunks that reports one, or what is there without any. */
  predicate LastReported(items: seq<Item>, n: nat, otherwise: TokenUsage, usage: TokenUsage)
    requires n <= |items| && forall i :: 0 <= i < n ==> items[i].Success?
  {
    || (usage == otherwise && forall i :: 0 <= i < n ==> items[i].value.usage.None?)
    || exists i :: 0 <= i < n && items[i].value.usage == Some(usage) && forall k :: i < k < n ==> items[k].value.usage.None?
  }

  /** The status a stream is metered with: 502 for an upstream failure, 200 for a normal end. */
  function EndStatus(items: seq<Item>, n: nat): nat
    requires n < |items| ==> items[n].Failure?
  {
    if n >= |items| then 200
    else if items[n].error.Infrastructure? || items[n].error.Provider? then 502
    else items[n].error.StatusCode()
  }

  /** What a stream over `items` with `n` chunks before the first error or the end has produced after
      `polls` polls: event i is chunk i under the names of the request; after the last chunk comes one
      event more, of the first error there is; and with it the one metering call, with the last usage
      reported, the status of the end and the price of the request. */
  ghost predicate Served(context: StreamContext, items: seq<Item>, n: nat, polls: nat, events: seq<Event>,
                         outcome: AppResult<()>, before: Account, after: Account)
    requires n <= |items| && forall i :: 0 <= i < n ==> items[i].Success?
    requires n < |items| ==> items[n].Failure?
  {
    && |events| == (if polls <= n then polls else n + 1)
    && (forall i :: 0 <= i < |events| && i < n ==>
          events[i] == ChunkEvent(StreamResponse(context.completionId, context.created, context.model,
                                                 items[i].value.index, items[i].value.delta, items[i].value.finishReason)))
    && if polls <= n then after == before
       else
         && events[n] == (if outcome.Failure? then ErrorEvent(outcome.error)
                          else if n < |items| then ErrorEvent(NormalizeProviderError(items[n].error, context.origin))
                          else DoneEvent)
         && exists usage: TokenUsage ::
              && LastReported(items, n, context.promptUsage, usage)
              && MetersOnce(before, after, BillingInput(context.origin.requestId, context.user, usage,
                                                        EndStatus(items, n), context.price), outcome)
  }

  lemma {:induction false} LastUsageMeans(items: seq<Item>, latest: Option<TokenUsage>, otherwise: TokenUsage)
    ensures LastReported(items, Chunks(items), latest.GetOr(otherwise), LastUsage(items, latest).GetOr(otherwise))
  {
    if items != [] && items[0].Success? {
      var next := if items[0].value.usage.Some? then items[0].value.usage else latest;
      var n, usage := Chunks(items), LastUsage(items, latest).GetOr(otherwise);
      LastUsageMeans(items[1..], next, otherwise);
      assert forall k :: 1 <= k < n ==> items[k] == items[1..][k - 1];
      if i :| 0 <= i < n - 1 && items[1..][i].value.usage == Some(usage)
              && forall k :: i < k < n - 1 ==> items[1..][k].value.usage.None? {
        assert items[i + 1].value.usage == Some(usage);
      } else if items[0].value.usage.Some? {
        assert items[0].value.usage == Some(usage);
      }
    }
  }

  /** The functions of a stream's contract, field by field. */
  lemma ServedMeans(context: StreamContext, items: seq<Item>, polls: nat, events: seq<Event>, outcome: AppResult<()>,
                    before: Account, after: Account)
    requires var chunks := ChunkEvents(context, items);
             if polls <= |chunks| then events == chunks[..polls] && after == before
             else
               && events == chunks + [FinalEvent(Ending(context, items), outcome)]
               && MetersOnce(before, after, InputOf(context, FinalMetering(context, items, None)), outcome)
    ensures Served(context, items, Chunks(items), polls, events, outcome, before, after)
  {
    hide Redaction.RedactText, Origin.Text, MetersOnce, LastReported;
    LastUsageMeans(items, None, context.promptUsage);
    if polls > Chunks(items) {
      assert FinalMetering(context, items, None).status == EndStatus(items, Chunks(items));
    }
  }

  /** The life of a streamed response whose consumer polls `polls` times and then drops it, over
      any cut of the upstream body: the events are a prefix of the mapped chunks followed by one
      terminal event; usage is metered exactly once if that event was produced and not at all
      otherwise, and a normal end is announced only after its event and charge have committed; the
      lease is given back exactly once either way. */
  method Serve(context: StreamContext, json: JsonDecoder, arrivals: seq<Arrival>, db: Database, redis: Limits.Redis,
               lease: Lease, polls: nat)
    returns (events: seq<Event>, metered: seq<Metering>, released: seq<Lease>, ghost outcome: AppResult<()>)
    requires db.Valid() && Limits.Positive(redis.store)
    modifies db, redis`store, redis`failures
    ensures db.Valid() && Limits.Positive(redis.store) && redis.failures >= old(redis.failures)
    ensures var items := DecodedItems(json, arrivals);
            var chunks, metering := ChunkEvents(context, items), FinalMetering(context, items, None);
            if polls <= |chunks| then events == chunks[..polls] && metered == [] && db.View() == old(db.View())
            else
              && events == chunks + [FinalEvent(Ending(context, items), outcome)] && metered == [metering]
              && MetersOnce(old(db.View()), db.View(), InputOf(context, metering), outcome)
              && (DoneEvent in events ==> outcome.Success? && metering.status == STATUS_OK)
    // In full, field by field.
    ensures var items := DecodedItems(json, arrivals);
            Served(context, items, Chunks(items), polls, events, outcome, old(db.View()), db.View())
    ensures released == [lease]
    ensures redis.failures == old(redis.failures) ==> redis.store == Limits.ReleasedAll(old(redis.store), lease.keys)
  {
    hide *;
    outcome := Success(());
    var upstream := new SseStream(json, arrivals);
    var stream := new StreamBuild(context, upstream, db, redis, lease);
    ghost var items := DecodedItems(json, arrivals);
    ghost var chunks, metering := ChunkEvents(context, items), FinalMetering(context, items, None);
    events := [];
    DoneMeansOk(context, items, outcome);
    for i := 0 to polls
      invariant stream.Valid() && fresh(stream) && fresh(stream.upstream) && stream.context == context
      invariant stream.db == db && stream.redis == redis && redis.failures >= old(redis.failures)
      invariant stream.emitDone ==>
                  && chunks == events + ChunkEvents(context, stream.ToCome()) && |events| == i <= |chunks|
                  && stream.limitLease == Some(lease) && stream.Due() == metering && stream.metered == []
                  && db.View() == old(db.View()) && redis.store == old(redis.store) && redis.failures == old(redis.failures)
      invariant stream.emitDone ==> Ending(context, items) == Ending(context, stream.ToCome())
      invariant !stream.emitDone ==>
                  && i > |chunks| && events == chunks + [FinalEvent(Ending(context, items), outcome)]
                  && stream.metered == [metering] && stream.released == [lease]
                  && MetersOnce(old(db.View()), db.View(), InputOf(context, metering), outcome)
                  && (redis.failures == old(redis.failures) ==>
                        redis.store == Limits.ReleasedAll(old(redis.store), lease.keys))
    {
      var event;
      ghost var recorded;
      event, recorded := stream.Poll();
      if event.Some? {
        events := events + [event.value];
        outcome := recorded;
      }
    }
    metered := stream.metered;
    stream.Drop();
    released := stream.released;
    DoneMeansOk(context, items, outcome);
    ServedMeans(context, items, polls, events, outcome, old(db.View()), db.View());
  }

  /** Chunks are not the end marker, and the end marker means a normal end metered as a success. */
  lemma DoneMeansOk(context: StreamContext, items: seq<Item>, outcome: AppResult<()>)
    ensures DoneEvent !in ChunkEvents(context, items)
    ensures FinalEvent(Ending(context, items), outcome) == DoneEvent ==>
              outcome.Success? && FinalMetering(context, items, None).status == STATUS_OK
  {
  }
}
