/** The operations of mizan-api on dispatch jobs. Between any two statements of one call the
    statements of other calls run: of daemons, waiters and sweepers. */
module DispatchClient {
  import opened Core
  import opened Decimal
  import opened Dispatch
  import opened Text

  datatype JobLease = JobLease(id: JobId, request: string, deadlineAt: Seconds)
  datatype Payload = Payload(status: string, response: Option<string>, errorCode: Option<string>, errorMessage: Option<string>)
  datatype DispatchResult =
    | ResultSucceeded(response: string)
    | ResultFailed(errorCode: Option<string>, errorMessage: string)
    | ResultTimedOut

  const BAD_ROW := AppError.Infrastructure("stored dispatch row is invalid")
  const POLL_MILLIS := 100

  function Deadline(now: Seconds, timeoutSeconds: nat): Seconds {
    var timeout := if timeoutSeconds == 0 then 1 else timeoutSeconds;
    if now + timeout > I64_MAX then I64_MAX else now + timeout
  }

  /** The rows the lease query selects from. */
  predicate Leasable(db: Db, node: NodeId, now: Seconds, id: JobId) {
    id in db.jobs && db.jobs[id].node == node && db.jobs[id].status == Accepted && !Expired(db.jobs[id], now)
  }

  predicate CreatedBefore(a: Job, b: Job) {
    TextLess(Render(a.createdAt), Render(b.createdAt))
  }

  /** `ids` answers the lease query: the five leasable rows created first, oldest first. */
  predicate IsSelection(db: Db, node: NodeId, now: Seconds, ids: seq<JobId>) {
    && |ids| <= 5
    && (forall i :: 0 <= i < |ids| ==> Leasable(db, node, now, ids[i]))
    && (forall i, j :: 0 <= i < j < |ids| ==> ids[i] != ids[j] && !CreatedBefore(db.jobs[ids[j]], db.jobs[ids[i]]))
    && (forall id :: id in db.jobs && Leasable(db, node, now, id) && id !in ids ==>
          |ids| == 5 && forall i :: 0 <= i < |ids| ==> !CreatedBefore(db.jobs[id], db.jobs[ids[i]]))
  }

  /** The selection in numbers: of the accepted jobs of the node whose deadline has not passed, the five
      created first, oldest first, times counted as their decimal texts order them. */
  lemma SelectionMeans(db: Db, node: NodeId, now: Seconds, ids: seq<JobId>)
    ensures IsSelection(db, node, now, ids) <==>
            && |ids| <= 5
            && (forall i :: 0 <= i < |ids| ==>
                  && ids[i] in db.jobs && db.jobs[ids[i]].node == node && db.jobs[ids[i]].status == Accepted
                  && DecimalLeq(now, db.jobs[ids[i]].deadlineAt))
            && (forall i, j :: 0 <= i < j < |ids| ==>
                  ids[i] != ids[j] && DecimalLeq(db.jobs[ids[i]].createdAt, db.jobs[ids[j]].createdAt))
            && (forall id :: id in db.jobs && id !in ids && db.jobs[id].node == node && db.jobs[id].status == Accepted
                             && DecimalLeq(now, db.jobs[id].deadlineAt) ==>
                  |ids| == 5 && forall i :: 0 <= i < |ids| ==> DecimalLeq(db.jobs[ids[i]].createdAt, db.jobs[id].createdAt))
  {
    hide TextLeq, Render, DecimalLeq;
    forall m: nat, n: nat ensures TextLeq(Render(m), Render(n)) <==> DecimalLeq(m, n) {
      TextOrderIsDecimal(m, n);
    }
  }

  function FinalStatus(text: string): Option<Status> {
    if Trim(text) == "succeeded" then Some(Succeeded)
    else if Trim(text) == "failed" then Some(Failed)
    else None
  }

  function CleanMessage(message: Option<string>): Option<string> {
    match message
    case Some(text) => if Trim(text) == "" then None else Some(Trim(text))
    case None => None
  }

  lemma StatusMeans(text: string)
    ensures FinalStatus(text) == Some(Succeeded) <==> Padded(text, "succeeded")
    ensures FinalStatus(text) == Some(Failed) <==> Padded(text, "failed")
    ensures FinalStatus(text) == None || FinalStatus(text) == Some(Succeeded) || FinalStatus(text) == Some(Failed)
  {
    hide Trim, Padded;
    TrimMeans(text, "succeeded");
    TrimMeans(text, "failed");
  }

  lemma MessageMeans(message: Option<string>)
    ensures match CleanMessage(message)
            case Some(clean) => IsTrimmed(clean) && message.Some? && Padded(message.value, clean)
            case None => message.None? || IsBlank(message.value)
  {
    hide Trim, Padded, IsTrimmed;
    if message.Some? {
      TrimEmpty(message.value);
      var before, after := TrimSplits(message.value);
      if Trim(message.value) != "" {
        TrimMeans(message.value, Trim(message.value));
      }
    }
  }

  class DispatchStore {
    var db: Db

    /** The clock of a waiter, in milliseconds. */
    var millis: nat

    /** The statements of this client that changed a row, in order. */
    ghost var own: seq<Op>

    /** JSON decoding of the stored request and response texts. */
    const decodeRequest: string -> Option<string>
    const decodeResponse: string -> Option<string>

    constructor (decodeRequest: string -> Option<string>, decodeResponse: string -> Option<string>)
      ensures db == EMPTY && Inv(db) && millis == 0 && own == []
      ensures this.decodeRequest == decodeRequest && this.decodeResponse == decodeResponse
    {
      db, millis, own := EMPTY, 0, [];
      this.decodeRequest := decodeRequest;
      this.decodeResponse := decodeResponse;
    }

    /** Time passes, at least that long. */
    method Elapse(least: nat)
      modifies this`millis
      ensures millis >= old(millis) + least
    {
      var passed: nat :| passed >= least;
      millis := millis + passed;
    }

    /** Other calls run: any statements they may issue. */
    method Yield()
      requires Inv(db)
      modifies this`db, this`millis
      ensures exists ops :: Legal(old(db), ops) && db == After(old(db), ops)
      ensures Extends(old(db), db) && millis >= old(millis)
    {
      Elapse(0);
      assert Legal(db, []) && db == After(db, []);
      RunExtends(db, []);
    }

    /** One update statement; it may fail. `hit` tells whether it changed its row. */
    method Execute(op: Op) returns (hit: Option<bool>)
      requires Inv(db) && Issued(db, op)
      modifies this`db, this`own
      ensures hit.Some? ==> db == Apply(old(db), op) && hit.value == Hits(old(db), op)
      ensures hit.None? ==> db == old(db)
      ensures own == old(own) + if hit == Some(true) then [op] else []
      ensures Extends(old(db), db)
    {
      hide Apply, Hits, Issued, Extends;
      var up := *;
      if up {
        StepExtends(db, op);
        hit := Some(Hits(db, op));
        own := own + if Hits(db, op) then [op] else [];
        db := Apply(db, op);
      } else {
        ExtendsItself(db);
        hit := None;
      }
    }

    /** Adds an accepted job under a fresh identifier. */
    method CreateDispatchJob(id: JobId, now: Seconds, clock: Seconds, node: NodeId, request: string, timeoutSeconds: nat)
      returns (r: AppResult<JobId>)
      requires Inv(db)
      modifies this`db, this`own
      ensures Inv(db) && Extends(old(db), db)
      ensures own == old(own) +
                if r.Success? then [Insert(id, NewJob(node, request, Deadline(clock, timeoutSeconds), now))] else []
      ensures r.Success? ==>
                && r.value == id && id !in old(db).jobs
                && db.jobs == old(db).jobs[id := NewJob(node, request, Deadline(clock, timeoutSeconds), now)]
                // The deadline is at least one second away, or the end of time.
                && var seconds := if timeoutSeconds == 0 then 1 else timeoutSeconds;
                var deadline := if clock + seconds > 0x7FFF_FFFF_FFFF_FFFF then 0x7FFF_FFFF_FFFF_FFFF else clock + seconds;
                && db.jobs[id] == Job(node, request, Accepted, None, None, None, None, None, deadline, now)
                && db.handouts == old(db).handouts && db.completions == old(db).completions
      ensures r.Failure? ==> r.error == FAULT && db == old(db)
    {
      hide Extends, Inv;
      var op := Insert(id, NewJob(node, request, Deadline(clock, timeoutSeconds), now));
      var hit := Execute(op);
      ExtendsKeepsInv(old(db), db);
      return if hit == Some(true) then Success(id) else Failure(FAULT);
    }

    /** The lease query; it may fail. */
    method SelectLeasable(node: NodeId, now: Seconds) returns (ids: Option<seq<JobId>>)
      ensures ids.Some? ==> IsSelection(db, node, now, ids.value)
    {
      var rows: seq<JobId> := *;
      return if IsSelection(db, node, now, rows) then Some(rows) else None;
    }

    /** Leases one job to `node`: the first of the selected ones that no other call took. */
    method LeaseNextJobForNode(node: NodeId, sweepNow: Seconds, now: Seconds)
      returns (r: AppResult<Option<JobLease>>, ghost seen: Db, ghost ids: seq<JobId>, ghost taken: nat)
      requires Inv(db)
      modifies this`db, this`millis, this`own
      ensures Inv(db) && Extends(old(db), db)
      // This call leases the job it answers with, or whose request does not decode, and no other.
      ensures r != Failure(FAULT) ==>
                own == old(own) + [Sweep(sweepNow)] +
                  if r == Success(None) then [] else if taken < |ids| then [TryLease(ids[taken], node, now)] else []
      ensures r == Failure(FAULT) ==> own == old(own) || own == old(own) + [Sweep(sweepNow)]
      ensures r.Success? ==> Extends(old(db), seen) && Extends(seen, db) && IsSelection(seen, node, now, ids)
      // What was selected before the leased job, or at all when nothing is leased, had gone to others.
      ensures r.Success? ==>
                taken <= |ids| && (r.value.None? ==> taken == |ids|) && AllGone(db, ids[..taken])
      // A job is handed out by this call, to the caller's node, before its deadline.
      ensures r.Success? && r.value.Some? ==>
                var lease := r.value.value;
                && taken < |ids| && ids[taken] == lease.id
                && LeasedTo(db, node, now, lease.id) && lease.deadlineAt == db.jobs[lease.id].deadlineAt
                && decodeRequest(db.jobs[lease.id].request) == Some(lease.request)
      // A lease whose stored request does not decode is an error, but has been handed out; after a
      // failed statement every lease this call tried had missed.
      ensures r == Failure(BAD_ROW) ==>
                && taken < |ids| && LeasedTo(db, node, now, ids[taken])
                && decodeRequest(db.jobs[ids[taken]].request).None?
      ensures r.Failure? ==> r.error in {FAULT, BAD_ROW} && taken <= |ids| && AllGone(db, ids[..taken])
    {
      hide *;
      ErrorsDiffer();
      NothingGone(db);
      SweepIsIssued(db, sweepNow);
      ids, seen, taken, r := [], db, 0, Failure(FAULT);
      var swept := Execute(Sweep(sweepNow));
      ExtendsKeepsInv(old(db), db);
      if swept.None? {
        NothingGone(db);
        return;
      }
      label Swept:
      Yield();
      ExtendsTransitive(old(db), old@Swept(db), db);
      ExtendsKeepsInv(old(db), db);
      var rows := SelectLeasable(node, now);
      if rows.None? {
        NothingGone(db);
        return;
      }
      ids, seen := rows.value, db;
      ExtendsItself(db);
      NothingGone(db);
      assert ids[..0] == [];
      var i := 0;
      while i < |rows.value|
        invariant i == taken <= |ids| && r == Failure(FAULT)
        invariant Inv(db) && Extends(old(db), seen) && Extends(seen, db)
        invariant AllGone(db, ids[..taken])
        invariant own == old(own) + [Sweep(sweepNow)]
      {
        var id := rows.value[i];
        label Try:
        Yield();
        ExtendsTransitive(seen, old@Try(db), db);
        ExtendsKeepsInv(seen, db);
        GoneStays(old@Try(db), db, ids[..taken]);
        ghost var before := db;
        SelectedCanBeTried(seen, before, node, now, ids, taken);
        var hit := Execute(TryLease(id, node, now));
        ExtendsTransitive(seen, before, db);
        ExtendsKeepsInv(seen, db);
        GoneStays(before, db, ids[..taken]);
        ExtendsTransitive(old(db), seen, db);
        if hit.None? {
          return;
        }
        TryLeaseOutcome(seen, before, node, now, ids, taken);
        if hit.value {
          var job := db.jobs[id];
          var request := decodeRequest(job.request);
          r := if request.Some? then Success(Some(JobLease(id, request.value, job.deadlineAt))) else Failure(BAD_ROW);
          return;
        }
        OneMoreGone(db, ids, taken);
        i, taken := i + 1, taken + 1;
      }
      ExtendsTransitive(old(db), seen, db);
      r := Success(None);
    }

    /** Stores the outcome a node reports for a job leased to it. */
    method CompleteJob(node: NodeId, id: JobId, payload: Payload, now: Seconds) returns (r: AppResult<Status>)
      requires Inv(db)
      modifies this`db, this`millis, this`own
      ensures Inv(db) && Extends(old(db), db)
      ensures own == old(own) +
                if r.Success? then
                  [Complete(id, node, r.value, payload.response, payload.errorCode, CleanMessage(payload.errorMessage), now)]
                else []
      // Refused are a status that is neither word, and a success without a response.
      ensures r == Failure(InvalidConfig("dispatch_job.status")) <==>
                !Padded(payload.status, "succeeded") && !Padded(payload.status, "failed")
      ensures r == Failure(InvalidConfig("dispatch_job.response")) <==>
                Padded(payload.status, "succeeded") && payload.response.None?
      ensures r.Failure? && r.error.InvalidConfig? ==> db == old(db)
      ensures r == Failure(NotFound) ==> !(id in db.jobs && db.jobs[id].node == node && db.jobs[id].status == Leased)
      ensures r.Failure? ==> r.error.InvalidConfig? || r.error in {NotFound, FAULT}
      ensures r.Success? ==>
                && id in db.jobs && db.jobs[id].node == node && db.jobs[id].leasedAt.Some?
                && r.value == db.jobs[id].status && r.value in {Succeeded, Failed}
                && (r.value == Succeeded <==> Padded(payload.status, "succeeded"))
                && (r.value == Failed <==> Padded(payload.status, "failed"))
                && db.jobs[id].response == payload.response && db.jobs[id].errorCode == payload.errorCode
                && db.jobs[id].completedAt == Some(now)
                && db.completions != [] && db.completions[|db.completions| - 1] == Completion(id, node, r.value, payload.response)
      // The message is stored without the white space around it, or not at all when there is no more.
      ensures r.Success? ==>
                match db.jobs[id].errorMessage
                case Some(message) => IsTrimmed(message) && payload.errorMessage.Some? && Padded(payload.errorMessage.value, message)
                case None => payload.errorMessage.None? || IsBlank(payload.errorMessage.value)
    {
      StatusMeans(payload.status);
      MessageMeans(payload.errorMessage);
      hide Extends, Inv, Trim, CleanMessage, Padded, IsTrimmed, IsBlank;
      var status := FinalStatus(payload.status);
      ExtendsItself(db);
      if status.None? {
        return Failure(InvalidConfig("dispatch_job.status"));
      }
      if status == Some(Succeeded) && payload.response.None? {
        return Failure(InvalidConfig("dispatch_job.response"));
      }
      Yield();
      ExtendsKeepsInv(old(db), db);
      ghost var before := db;
      var op := Complete(id, node, status.value, payload.response, payload.errorCode, CleanMessage(payload.errorMessage), now);
      var hit := Execute(op);
      ExtendsTransitive(old(db), before, db);
      ExtendsKeepsInv(before, db);
      if hit.None? {
        return Failure(FAULT);
      }
      if !hit.value {
        return Failure(NotFound);
      }
      LeasedHasTime(before, id);
      return Success(status.value);
    }

    /** One look at a job. */
    method FetchTerminalResult(id: JobId) returns (r: AppResult<Option<DispatchResult>>)
      ensures r == Failure(FAULT) || r == Look(db, id, decodeResponse)
    {
      var up := *;
      return if up then Look(db, id, decodeResponse) else Failure(FAULT);
    }

    /** Looks at a job every 100 milliseconds until it is terminal or the time is up. */
    method WaitForDispatchResult(id: JobId, timeoutMillis: nat) returns (r: AppResult<DispatchResult>)
      requires Inv(db)
      modifies this`db, this`millis
      ensures Inv(db) && Extends(old(db), db) && millis >= old(millis)
      ensures r.Success? ==>
                || Look(db, id, decodeResponse) == Success(Some(r.value))
                || (r.value == ResultTimedOut && millis >= old(millis) + timeoutMillis
                    && Look(db, id, decodeResponse) == Success(None))
      ensures r.Failure? ==> r.error == FAULT || Look(db, id, decodeResponse) == Failure(r.error)
      // In full: what the row says.
      ensures r.Success? ==>
                && id in db.jobs
                && var job := db.jobs[id];
                match r.value
                case ResultSucceeded(response) =>
                  job.status == Succeeded && job.response.Some? && decodeResponse(job.response.value) == Some(response)
                case ResultFailed(errorCode, errorMessage) =>
                  && job.status == Failed && errorCode == job.errorCode
                  && errorMessage == if job.errorMessage.Some? then job.errorMessage.value else "daemon job failed"
                case ResultTimedOut =>
                  || job.status == TimedOut
                  || ((job.status == Accepted || job.status == Leased) && millis >= old(millis) + timeoutMillis)
      ensures r == Failure(NotFound) ==> id !in db.jobs
      ensures r.Failure? && r.error !in {NotFound, FAULT} ==>
                && r == Failure(BAD_ROW) && id in db.jobs && db.jobs[id].status == Succeeded
                && (db.jobs[id].response.None? || decodeResponse(db.jobs[id].response.value).None?)
    {
      hide Extends, Inv;
      var startedAt := millis;
      ExtendsItself(db);
      while true
        invariant Inv(db) && Extends(old(db), db) && millis >= startedAt == old(millis)
        decreases startedAt + timeoutMillis - millis
      {
        label Slept:
        Yield();
        ExtendsTransitive(old(db), old@Slept(db), db);
        ExtendsKeepsInv(old(db), db);
        var look := FetchTerminalResult(id);
        if look.Failure? {
          return Failure(look.error);
        }
        if look.value.Some? {
          return Success(look.value.value);
        }
        Elapse(0);
        if millis - startedAt >= timeoutMillis {
          return Success(ResultTimedOut);
        }
        Elapse(POLL_MILLIS);
      }
    }

    method MarkJobTimedOut(id: JobId, now: Seconds) returns (ok: bool)
      requires Inv(db)
      modifies this`db, this`own
      ensures Inv(db) && Extends(old(db), db)
      ensures own == old(own) + if ok && Hits(old(db), MarkTimedOut(id, now)) then [MarkTimedOut(id, now)] else []
      ensures ok && id in old(db).jobs && (old(db).jobs[id].status == Accepted || old(db).jobs[id].status == Leased) ==>
                && id in db.jobs
                && db.jobs[id] == old(db).jobs[id].(status := TimedOut, errorCode := Some("timeout"),
                                                    errorMessage := Some("daemon dispatch timed out"), completedAt := Some(now))
      ensures ok ==> db == Apply(old(db), MarkTimedOut(id, now)) && (id in db.jobs ==> IsTerminal(db.jobs[id].status))
      ensures !ok ==> db == old(db)
    {
      hide Extends, Inv;
      var hit := Execute(MarkTimedOut(id, now));
      ExtendsKeepsInv(old(db), db);
      return hit.Some?;
    }

    /** Marks a job whose wait is over, after others have run since its last look. */
    method TimeOut(id: JobId) returns (ok: bool, ghost marks: seq<Op>)
      requires Inv(db) && id in db.jobs
      modifies this`db, this`millis, this`own
      ensures Inv(db) && Extends(old(db), db) && millis >= old(millis) && own == old(own) + marks && OnlyMarks(marks, id)
      ensures id in db.jobs && db.jobs[id].node == old(db).jobs[id].node && db.jobs[id].request == old(db).jobs[id].request
      ensures ok ==> IsTerminal(db.jobs[id].status)
      ensures ok && !IsCompleted(old(db).jobs[id]) ==> (db.jobs[id].status == TimedOut <==> NotCompletedSince(old(db), db, id))
    {
      hide Extends, Inv, Apply, Issued, NotCompletedSince, Hits;
      Yield();
      ghost var late := db;
      ExtendsKeepsInv(old(db), db);
      ExtendsHasJobs(old(db), db);
      var now: Seconds := *;
      ok := MarkJobTimedOut(id, now);
      marks := if ok && Hits(late, MarkTimedOut(id, now)) then [MarkTimedOut(id, now)] else [];
      ExtendsTransitive(old(db), late, db);
      ExtendsHasJobs(late, db);
      if ok {
        MarkEnds(late, id, now);
        SameCompletions(old(db), late, db, id);
        if !IsCompleted(old(db).jobs[id]) {
          CompletedSince(old(db), late, id);
        }
      }
    }

    /** Runs a request on a daemon node. An `Ok` means that the job is terminal, for ever; a
        success is the one response that the job's own node stored after leasing it; a time-out is
        one of the row, or comes after the full wait and is true of the job exactly when no
        completion of it landed since `look`, the state of the last look. */
    method DispatchToDaemonNode(node: NodeId, request: string, timeoutSeconds: nat)
      returns (r: AppResult<DispatchResult>, ghost id: JobId, ghost look: Db)
      requires Inv(db)
      modifies this`db, this`millis, this`own
      ensures Inv(db) && Extends(old(db), db)
      // This call inserts the job and, after a time-out, marks it; it does nothing else.
      ensures old(own) <= own && OnlyDispatches(own[|old(own)|..], id)
      ensures r.Success? && !r.value.ResultTimedOut? ==> |own| == |old(own)| + 1
      ensures r.Success? ==>
                && id !in old(db).jobs && id in db.jobs
                && db.jobs[id].node == node && db.jobs[id].request == request && IsTerminal(db.jobs[id].status)
      ensures r.Success? && !r.value.ResultTimedOut? ==> IsCompleted(db.jobs[id]) && CompletedByItsNode(db, id)
      ensures r.Success? && r.value.ResultSucceeded? ==>
                && db.jobs[id].status == Succeeded && db.jobs[id].response.Some?
                && decodeResponse(db.jobs[id].response.value) == Some(r.value.response)
      ensures r.Success? && r.value.ResultFailed? ==>
                && db.jobs[id].status == Failed && r.value.errorCode == db.jobs[id].errorCode
                && r.value.errorMessage == db.jobs[id].errorMessage.GetOr("daemon job failed")
      ensures r.Success? ==>
                Extends(look, db) && id in look.jobs && Look(look, id, decodeResponse) in {Success(Some(r.value)), Success(None)}
      ensures r.Success? && r.value.ResultTimedOut? ==>
                (db.jobs[id].status == TimedOut <==> NotCompletedSince(look, db, id))
      ensures r.Success? && r.value.ResultTimedOut? && Look(look, id, decodeResponse) == Success(None) ==>
                millis >= old(millis) + 1000 * if timeoutSeconds == 0 then 1 else timeoutSeconds
    {
      hide Extends, Inv, CompletedByItsNode, Apply, Issued, NotCompletedSince, OnlyDispatches, OnlyMarks;
      look := db;
      var timeout := if timeoutSeconds == 0 then 1 else timeoutSeconds;
      Yield();
      ghost var start := db;
      ExtendsKeepsInv(old(db), db);
      var freshId: JobId, now: Seconds, clock: Seconds := *, *, *;
      id := freshId;
      Dispatches(own, NewJob(node, request, Deadline(clock, timeoutSeconds), now), [], id);
      var created := CreateDispatchJob(freshId, now, clock, node, request, timeoutSeconds);
      ghost var inserted := db;
      ExtendsTransitive(old(db), start, db);
      if created.Failure? {
        return Failure(created.error), id, look;
      }
      ExtendsHasJobs(old(db), start);
      var result := WaitForDispatchResult(freshId, timeout * 1000);
      look := db;
      ExtendsItself(db);
      ExtendsTransitive(old(db), inserted, db);
      ExtendsHasJobs(inserted, db);
      if result.Failure? {
        return Failure(result.error), id, look;
      }
      CompletedOnce(db, id);
      if result.value == ResultTimedOut {
        var ok;
        ghost var marks;
        ok, marks := TimeOut(freshId);
        Dispatches(old(own), NewJob(node, request, Deadline(clock, timeoutSeconds), now), marks, id);
        ExtendsTransitive(old(db), look, db);
        if !ok {
          return Failure(FAULT), id, look;
        }
      }
      return result, id, look;
    }
  }

  /** The insertion of a job, and at most a time-out after it. */
  predicate OnlyDispatches(ops: seq<Op>, id: JobId) {
    && |ops| <= 2
    && (|ops| > 0 ==> ops[0].Insert? && ops[0].id == id)
    && (|ops| > 1 ==> ops[1].MarkTimedOut? && ops[1].id == id)
  }

  predicate OnlyMarks(ops: seq<Op>, id: JobId) {
    |ops| <= 1 && forall i :: 0 <= i < |ops| ==> ops[i].MarkTimedOut? && ops[i].id == id
  }

  lemma Dispatches(own: seq<Op>, job: Job, marks: seq<Op>, id: JobId)
    ensures OnlyDispatches(own[|own|..], id) && OnlyMarks([], id)
    ensures OnlyMarks(marks, id) ==> OnlyDispatches((own + [Insert(id, job)] + marks)[|own|..], id)
    ensures OnlyDispatches((own + [Insert(id, job)])[|own|..], id)
  {
    assert (own + [Insert(id, job)] + marks)[|own|..] == [Insert(id, job)] + marks;
    assert (own + [Insert(id, job)])[|own|..] == [Insert(id, job)];
  }

  lemma SameCompletions(look: Db, late: Db, db: Db, id: JobId)
    requires db.completions == late.completions
    ensures NotCompletedSince(look, db, id) <==> NotCompletedSince(look, late, id)
  {
  }

  /** What a waiter makes of the row it reads. */
  function Look(db: Db, id: JobId, decode: string -> Option<string>): AppResult<Option<DispatchResult>> {
    if id !in db.jobs then Failure(NotFound)
    else
      var job := db.jobs[id];
      match job.status
      case Succeeded =>
        if job.response.None? || decode(job.response.value).None? then Failure(BAD_ROW)
        else Success(Some(ResultSucceeded(decode(job.response.value).value)))
      case Failed => Success(Some(ResultFailed(job.errorCode, job.errorMessage.GetOr("daemon job failed"))))
      case TimedOut => Success(Some(ResultTimedOut))
      case _ => Success(None)
  }

  /** The job was handed to its own node, that node completed it, and nobody else did either. */
  ghost predicate CompletedByItsNode(db: Db, id: JobId)
    requires id in db.jobs
  {
    var job := db.jobs[id];
    && Handout(id, job.node) in db.handouts
    && Completion(id, job.node, job.status, job.response) in db.completions
    && (forall i :: 0 <= i < |db.handouts| && db.handouts[i].id == id ==> db.handouts[i].node == job.node)
    && (forall i, j :: 0 <= i < j < |db.handouts| ==> db.handouts[i].id != id || db.handouts[j].id != id)
    && (forall i :: 0 <= i < |db.completions| && db.completions[i].id == id ==>
          db.completions[i] == Completion(id, job.node, job.status, job.response))
    && (forall i, j :: 0 <= i < j < |db.completions| ==> db.completions[i].id != id || db.completions[j].id != id)
  }

  lemma CompletedOnce(db: Db, id: JobId)
    requires Inv(db) && id in db.jobs
    ensures IsCompleted(db.jobs[id]) ==> CompletedByItsNode(db, id)
  {
    hide TextLeq, Render;
    assert JobOk(db.jobs[id]);
  }

  lemma LeasedHasTime(db: Db, id: JobId)
    requires Inv(db) && id in db.jobs && db.jobs[id].status == Leased
    ensures db.jobs[id].leasedAt.Some?
  {
    hide TextLeq, Render, HandoutsOk, CompletionsOk;
    assert JobOk(db.jobs[id]);
  }

  lemma ExtendsHasJobs(before: Db, after: Db)
    requires Extends(before, after)
    ensures forall id :: id in before.jobs ==> id in after.jobs && Evolves(before.jobs[id], after.jobs[id])
  {
  }

  lemma ErrorsDiffer()
    ensures FAULT != BAD_ROW
  {
    assert FAULT.message[0] == 'd' && BAD_ROW.message[0] == 's';
  }

  /** The job is no longer there to be leased, and never will be. */
  predicate Gone(db: Db, id: JobId) {
    id in db.jobs && db.jobs[id].status != Accepted
  }

  predicate AllGone(db: Db, ids: seq<JobId>) {
    forall i :: 0 <= i < |ids| ==> Gone(db, ids[i])
  }

  lemma NothingGone(db: Db)
    ensures AllGone(db, [])
  {
  }

  lemma OneMoreGone(db: Db, ids: seq<JobId>, k: nat)
    requires k < |ids| && AllGone(db, ids[..k]) && Gone(db, ids[k])
    ensures AllGone(db, ids[..k + 1])
  {
    assert ids[..k + 1] == ids[..k] + [ids[k]];
  }

  lemma GoneStays(before: Db, after: Db, ids: seq<JobId>)
    requires Extends(before, after) && AllGone(before, ids)
    ensures AllGone(after, ids)
  {
    hide JobOk, HandoutsOk, CompletionsOk;
  }

  lemma SweepIsIssued(db: Db, now: Seconds)
    ensures Issued(db, Sweep(now)) && Hits(db, Sweep(now))
  {
  }

  /** The job has just been handed to `node`, before its deadline. */
  ghost predicate LeasedTo(db: Db, node: NodeId, now: Seconds, id: JobId) {
    && id in db.jobs && db.jobs[id].node == node && db.jobs[id].status == Leased && db.jobs[id].leasedAt == Some(now)
    && TextLeq(Render(now), Render(db.jobs[id].deadlineAt))
    && db.handouts != [] && db.handouts[|db.handouts| - 1] == Handout(id, node)
  }

  lemma SelectedCanBeTried(seen: Db, before: Db, node: NodeId, now: Seconds, ids: seq<JobId>, k: nat)
    requires Extends(seen, before) && IsSelection(seen, node, now, ids) && k < |ids|
    ensures Issued(before, TryLease(ids[k], node, now)) && before.jobs[ids[k]].node == node
  {
    hide JobOk, HandoutsOk, CompletionsOk, CreatedBefore, TextLeq, Render;
    assert Leasable(seen, node, now, ids[k]);
  }

  lemma TryLeaseOutcome(seen: Db, before: Db, node: NodeId, now: Seconds, ids: seq<JobId>, k: nat)
    requires Extends(seen, before) && IsSelection(seen, node, now, ids) && k < |ids|
    ensures ids[k] in Apply(before, TryLease(ids[k], node, now)).jobs
    ensures var op := TryLease(ids[k], node, now);
            if Hits(before, op) then LeasedTo(Apply(before, op), node, now, ids[k])
            else Apply(before, op) == before && Gone(before, ids[k])
  {
    hide JobOk, HandoutsOk, CompletionsOk, CreatedBefore, TextLeq, Render;
    SelectedCanBeTried(seen, before, node, now, ids, k);
  }
}
